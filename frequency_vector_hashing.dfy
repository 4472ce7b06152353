/**
 * FrequencyVectorHashing.cs: the 28-entry count vector FrequencyVector with
 * structural equality, the dictionary keyed by it, and the candidate
 * selection of FreqString.GetSuggestions: keys within filter cost k, then the
 * words of their buckets within edit distance k.
 */
module FrequencyVectorHashing {
  import opened Utils
  import opened EditDistance
  import opened Histograms
  import opened LowerBound
  import opened Buckets

  class FrequencyVector {
    const vec: array<int>

    /** The counts, indexed by character code. */
    function Counts(): seq<int>
      reads vec
    {
      vec[..]
    }

    predicate Valid()
      reads vec
    {
      vec.Length == MaxChars && forall c :: 0 <= c < MaxChars ==> vec[c] >= 0
    }

    /** Counts the characters of s, each at the index its code gives. */
    constructor(s: string)
      requires IndexableString(s)
      ensures Valid() && Counts() == HistogramOf(s)
      ensures fresh(vec)
    {
      var a := new int[MaxChars](_ => 0);
      vec := a;
      new;
      assert a[..] == HistogramOf(s[..0]);
      for k := 0 to |s|
        invariant a[..] == HistogramOf(s[..k])
      {
        var c := s[k];
        a[Ord(c)] := a[Ord(c)] + 1;
        assert s[..k + 1] == s[..k] + [c];
        HistogramSnoc(s[..k], c);
      }
      assert s[..|s|] == s;
    }

    /** The get-only indexer: the count stored for a code, never negative. */
    function Get(index: int): (r: int)
      requires Valid() && 0 <= index < MaxChars
      reads vec
      ensures r >= 0 && r == Counts()[index]
    {
      vec[index]
    }

    /** Folds hash * 19 + count over the counts from 17, wrapping like a C# int. */
    method GetHashCode() returns (hash: int)
      requires Valid()
      ensures hash == HashOf(Counts())
      ensures -0x8000_0000 <= hash < 0x8000_0000
    {
      hash := 17;
      for i := 0 to MaxChars
        invariant hash == HashUpTo(Counts(), i)
      {
        hash := Int32(hash * 19 + vec[i]);
      }
    }

    /** Compares the 28 counts in order and stops at the first that differs. */
    method EqualsHelper(a: FrequencyVector) returns (b: bool)
      requires Valid() && a.Valid()
      ensures b <==> Counts() == a.Counts()
    {
      for i := 0 to MaxChars
        invariant forall c :: 0 <= c < i ==> vec[c] == a.vec[c]
      {
        if vec[i] != a.Get(i) {
          return false;
        }
      }
      assert Counts() == a.Counts();
      return true;
    }

    /**
     * Structural equality: obj is a FrequencyVector holding the same counts.
     * Anything that is not a FrequencyVector, null included, is unequal.
     */
    method Equals(obj: object?) returns (b: bool)
      requires Valid()
      requires obj is FrequencyVector ==> (obj as FrequencyVector).Valid()
      ensures b <==> obj is FrequencyVector && Counts() == (obj as FrequencyVector).Counts()
    {
      if obj is FrequencyVector {
        b := EqualsHelper(obj as FrequencyVector);
      } else {
        b := false;
      }
    }
  }

  /**
   * Equal vectors hash alike. Equals returns true exactly when the counts
   * agree (its ensures), and GetHashCode returns HashOf of the counts (its
   * ensures); the content is in those two contracts, and this lemma only
   * joins them: vectors that Equals relates get the same 32-bit hash code.
   */
  lemma EqualVectorsHashAlike(x: FrequencyVector, y: FrequencyVector)
    requires x.Valid() && y.Valid() && x.Counts() == y.Counts()
    ensures HashOf(x.Counts()) == HashOf(y.Counts())
    ensures -0x8000_0000 <= HashOf(x.Counts()) < 0x8000_0000
  {
  }

  /**
   * A dictionary from FrequencyVector to the words filed under it. Its keys
   * compare structurally, so no two of them hold the same counts, and every
   * word is filed under the vector of its own counts.
   */
  class FreqVecDictionary {
    var buckets: map<FrequencyVector, seq<string>>

    predicate Valid()
      reads this, set key | key in buckets :: key.vec
    {
      (forall key :: key in buckets ==>
        key.Valid() && forall w :: w in buckets[key] ==> IndexableString(w) && HistogramOf(w) == key.Counts())
      && forall x, y :: x in buckets && y in buckets && x.Counts() == y.Counts() ==> x == y
    }

    /** All the words of all the buckets. */
    ghost function Words(): set<string>
      reads this
    {
      set key, w | key in buckets && w in buckets[key] :: w
    }

    /** The keys whose filter cost against the counts q is at most k. */
    ghost function Passing(q: seq<int>, k: int): set<FrequencyVector>
      reads this, set key | key in buckets :: key.vec
    {
      set key | key in buckets && key.vec.Length == |q| && FilterCost(key.Counts(), q) <= k
    }

    constructor()
      ensures buckets == map[] && Valid()
    {
      buckets := map[];
    }
  }

  /**
   * The result of GetSuggestions. Looking up the frequency of a match that
   * the frequency dictionary does not hold throws KeyNotFoundException inside
   * the parallel loop, which reaches the caller of GetSuggestions wrapped in
   * an AggregateException: that is KeyNotFound. Otherwise the counters mt and
   * wt, the matches in the order collected, and the first topOptions of them
   * that are written out.
   */
  datatype Outcome =
    | KeyNotFound
    | Report(matchedKeys: nat, processedWords: nat, matches: seq<string>, shown: seq<string>)

  class FreqString {
    const text: string
    const vec: FrequencyVector

    predicate Valid()
      reads vec, vec.vec
    {
      IndexableString(text) && vec.Valid() && vec.Counts() == HistogramOf(text)
    }

    constructor(t: string)
      requires IndexableString(t)
      ensures text == t && Valid()
      ensures fresh(vec) && fresh(vec.vec)
    {
      text := t;
      vec := new FrequencyVector(t);
    }

    /**
     * The inner loop of GetSuggestions over one bucket: counts every word,
     * and collects those within edit distance k, stopping at the first of
     * them the frequency dictionary does not hold.
     */
    method ScanBucket(bucket: seq<string>, occurrences: map<string, real>, k: int)
      returns (found: seq<string>, counted: nat, missing: bool)
      requires IndexableString(text)
      requires forall w :: w in bucket ==> IndexableString(w)
      ensures missing <==> exists w :: w in bucket && Levenshtein(text, w) <= k && w !in occurrences
      ensures !missing ==> found == Within(bucket, text, k) && counted == |bucket|
    {
      found, counted, missing := [], 0, false;
      for i := 0 to |bucket|
        invariant counted == i
        invariant found == Within(bucket[..i], text, k)
        invariant forall w :: w in found ==> w in occurrences
      {
        var s := bucket[i];
        counted := counted + 1;
        var dist := Distance(text, s);
        if dist <= k {
          if s !in occurrences {
            missing := true;
            return;
          }
          found := found + [s];
        }
        assert bucket[..i + 1][..i] == bucket[..i];
      }
      assert bucket[..|bucket|] == bucket;
    }

    /** The display loop: the first topOptions matches, or all when fewer. */
    static method Top(matches: seq<string>, topOptions: int) returns (shown: seq<string>)
      ensures |shown| == if topOptions <= 0 then 0 else Min(topOptions, |matches|)
      ensures shown == matches[..|shown|]
    {
      shown := [];
      var i := 0;
      while i < topOptions && i < |matches|
        invariant 0 <= i <= |matches| && shown == matches[..i]
        invariant topOptions > 0 ==> i <= topOptions
        invariant topOptions <= 0 ==> i == 0
      {
        shown := shown + [matches[i]];
        i := i + 1;
      }
    }

    /**
     * The parallel loop of GetSuggestions, run one key at a time in some
     * order: a key whose filter cost against this string is at most k counts
     * in mt, each word of its bucket counts in wt, and the words within edit
     * distance k are collected. A match without a frequency stops the loop.
     */
    method Collect(dict: FreqVecDictionary, occurrences: map<string, real>, k: int)
      returns (mt: nat, wt: nat, matches: seq<string>, missing: bool, ghost order: seq<FrequencyVector>)
      requires Valid() && dict.Valid()
      ensures missing ==> exists w :: w in dict.Words() && Levenshtein(text, w) <= k && w !in occurrences
      ensures !missing ==> Enumerates(order, dict.buckets.Keys) && forall key :: key in order ==> key in dict.buckets
      ensures !missing ==> mt == |Kept(order, dict.Passing(vec.Counts(), k))|
      ensures !missing ==> wt == |Gather(dict.buckets, order, dict.Passing(vec.Counts(), k))|
      ensures !missing ==> matches == Within(Gather(dict.buckets, order, dict.Passing(vec.Counts(), k)), text, k)
      ensures !missing ==> forall w :: w in matches ==> w in occurrences
    {
      ghost var passing := dict.Passing(vec.Counts(), k);
      mt, wt, matches, missing := 0, 0, [], false;
      order := [];
      var remaining := dict.buckets.Keys;
      while remaining != {}
        invariant remaining <= dict.buckets.Keys
        invariant multiset(order) + multiset(remaining) == multiset(dict.buckets.Keys)
        invariant Tally(dict.buckets, order, passing, text, k, occurrences, mt, wt, matches)
        decreases |remaining|
      {
        var key :| key in remaining;
        var hit, found, counted;
        hit, found, counted, missing := VisitKey(dict, key, occurrences, k);
        if missing {
          return;
        }
        Advance(dict.buckets, order, key, passing, text, k, occurrences, mt, wt, matches, hit, found, counted);
        if hit {
          mt, wt, matches := mt + 1, wt + counted, matches + found;
        }
        TakeOne(order, remaining, key);
        order := order + [key];
        remaining := remaining - {key};
      }
    }

    /**
     * The body of the parallel loop for one key: the filter, and the scan of
     * the key's bucket when the key passes it.
     */
    method VisitKey(dict: FreqVecDictionary, key: FrequencyVector, occurrences: map<string, real>, k: int)
      returns (hit: bool, found: seq<string>, counted: nat, missing: bool)
      requires Valid() && dict.Valid() && key in dict.buckets
      ensures hit <==> key in dict.Passing(vec.Counts(), k)
      ensures missing ==> exists w :: w in dict.Words() && Levenshtein(text, w) <= k && w !in occurrences
      ensures !missing && hit ==> found == Within(dict.buckets[key], text, k) && counted == |dict.buckets[key]|
      ensures !missing && hit ==> forall w :: w in found ==> w in occurrences
    {
      hit, found, counted, missing := false, [], 0, false;
      if FilterCost(key.Counts(), vec.Counts()) <= k {
        hit := true;
        var bucket := dict.buckets[key];
        found, counted, missing := ScanBucket(bucket, occurrences, k);
        if missing {
          ghost var w :| w in bucket && Levenshtein(text, w) <= k && w !in occurrences;
          assert w in dict.Words();
        }
      }
    }

    /**
     * GetSuggestions without the scores and the sort: the counters, the
     * matches and the prefix of them written out. The matches are exactly
     * those of a scan of every bucket, and a missing frequency is reported
     * exactly when some word of the dictionary within distance k has none.
     * Any other visit order of the keys finds the same multiset of matches.
     */
    method GetSuggestions(dict: FreqVecDictionary, occurrences: map<string, real>, k: int, topOptions: int)
      returns (r: Outcome, ghost order: seq<FrequencyVector>)
      requires Valid() && dict.Valid()
      ensures r.KeyNotFound? <==> exists w :: w in dict.Words() && Levenshtein(text, w) <= k && w !in occurrences
      ensures r.Report? ==> Enumerates(order, dict.buckets.Keys) && forall key :: key in order ==> key in dict.buckets
      ensures r.Report? ==> r.matchedKeys == |dict.Passing(vec.Counts(), k)|
      ensures r.Report? ==> r.processedWords == |Gather(dict.buckets, order, dict.Passing(vec.Counts(), k))|
      ensures r.Report? ==> r.matches == Within(Gather(dict.buckets, order, dict.Passing(vec.Counts(), k)), text, k)
      ensures r.Report? ==> r.matches == Within(Gather(dict.buckets, order, dict.buckets.Keys), text, k)
      ensures r.Report? ==> forall o :: Enumerates(o, dict.buckets.Keys) && (forall key :: key in o ==> key in dict.buckets) ==>
                multiset(r.matches) == multiset(Within(Gather(dict.buckets, o, dict.buckets.Keys), text, k))
      ensures r.Report? ==> |r.shown| == (if topOptions <= 0 then 0 else Min(topOptions, |r.matches|))
      ensures r.Report? ==> r.shown == r.matches[..|r.shown|]
    {
      var mt, wt, matches, missing;
      mt, wt, matches, missing, order := Collect(dict, occurrences, k);
      if missing {
        return KeyNotFound, order;
      }
      Settle(dict, text, k, occurrences, order, mt, matches);
      var shown := Top(matches, topOptions);
      AnyOrder(dict.buckets, order, text, k);
      r := Report(mt, wt, matches, shown);
    }
  }

  /**
   * The state of the key loop of GetSuggestions after visiting the keys of
   * order: mt counts the keys that passed, wt the words of their buckets, and
   * matches holds those words within distance k, all of them with a frequency.
   */
  ghost predicate Tally(m: map<FrequencyVector, seq<string>>, order: seq<FrequencyVector>, keep: set<FrequencyVector>,
                        q: string, k: int, occurrences: map<string, real>, mt: int, wt: int, matches: seq<string>)
  {
    && (forall key :: key in order ==> key in m)
    && mt == |Kept(order, keep)|
    && wt == |Gather(m, order, keep)|
    && matches == Within(Gather(m, order, keep), q, k)
    && forall w :: w in matches ==> w in occurrences
  }

  /** Visiting one more key keeps the tally, given what the visit of that key found. */
  lemma Advance(m: map<FrequencyVector, seq<string>>, order: seq<FrequencyVector>, key: FrequencyVector,
                keep: set<FrequencyVector>, q: string, k: int, occurrences: map<string, real>,
                mt: int, wt: int, matches: seq<string>, hit: bool, found: seq<string>, counted: int)
    requires key in m && Tally(m, order, keep, q, k, occurrences, mt, wt, matches)
    requires hit <==> key in keep
    requires hit ==> found == Within(m[key], q, k) && counted == |m[key]|
    requires hit ==> forall w :: w in found ==> w in occurrences
    ensures Tally(m, order + [key], keep, q, k, occurrences, if hit then mt + 1 else mt,
                  if hit then wt + counted else wt, if hit then matches + found else matches)
  {
    VisitOne(m, order, key, keep, q, k);
  }

  /**
   * Visiting one more key extends the visited keys that pass, the words
   * gathered and the matches among them by that key's share.
   */
  lemma VisitOne(m: map<FrequencyVector, seq<string>>, order: seq<FrequencyVector>, key: FrequencyVector,
                 keep: set<FrequencyVector>, q: string, k: int)
    requires key in m && forall x :: x in order ==> x in m
    ensures Kept(order + [key], keep) == Kept(order, keep) + (if key in keep then [key] else [])
    ensures Gather(m, order + [key], keep) == Gather(m, order, keep) + (if key in keep then m[key] else [])
    ensures Within(Gather(m, order + [key], keep), q, k) ==
              Within(Gather(m, order, keep), q, k) + (if key in keep then Within(m[key], q, k) else [])
  {
    assert (order + [key])[..|order|] == order;
    WithinAppend(Gather(m, order, keep), if key in keep then m[key] else [], q, k);
  }

  /**
   * What a complete run of the key loop amounts to: mt counts every passing
   * key once, the matches are those of a scan of every bucket, and no word
   * within distance k lacks a frequency.
   */
  lemma Settle(dict: FreqVecDictionary, q: string, k: int, occurrences: map<string, real>,
               order: seq<FrequencyVector>, mt: int, matches: seq<string>)
    requires dict.Valid() && IndexableString(q) && Enumerates(order, dict.buckets.Keys)
    requires forall key :: key in order ==> key in dict.buckets
    requires mt == |Kept(order, dict.Passing(HistogramOf(q), k))|
    requires matches == Within(Gather(dict.buckets, order, dict.Passing(HistogramOf(q), k)), q, k)
    requires forall w :: w in matches ==> w in occurrences
    ensures mt == |dict.Passing(HistogramOf(q), k)|
    ensures matches == Within(Gather(dict.buckets, order, dict.buckets.Keys), q, k)
    ensures !exists w :: w in dict.Words() && Levenshtein(q, w) <= k && w !in occurrences
  {
    var passing := dict.Passing(HistogramOf(q), k);
    PrunedScanIsExact(dict, q, k, order);
    KeptCount(order, dict.buckets.Keys, passing);
    assert dict.buckets.Keys * passing == passing;
  }

  /**
   * Filtering by FC loses no match: a word of a dropped bucket has the
   * dropped key's counts, and FC never exceeds the edit distance, so it is
   * farther than k. Hence the matches of the surviving buckets are those of
   * all the buckets, and contain every word of the dictionary within k.
   */
  lemma PrunedScanIsExact(dict: FreqVecDictionary, q: string, k: int, order: seq<FrequencyVector>)
    requires dict.Valid() && IndexableString(q) && Enumerates(order, dict.buckets.Keys)
    requires forall key :: key in order ==> key in dict.buckets
    ensures Within(Gather(dict.buckets, order, dict.Passing(HistogramOf(q), k)), q, k) ==
            Within(Gather(dict.buckets, order, dict.buckets.Keys), q, k)
    ensures forall w :: w in dict.Words() && Levenshtein(q, w) <= k ==>
              w in Within(Gather(dict.buckets, order, dict.buckets.Keys), q, k)
  {
    var passing := dict.Passing(HistogramOf(q), k);
    forall key, w | key in order && key !in passing && w in dict.buckets[key]
      ensures Levenshtein(q, w) > k
    {
      FilterCostBelowDistance(w, q);
      Symmetric(w, q);
    }
    PruningIsExact(dict.buckets, order, passing, q, k);
    forall w | w in dict.Words() && Levenshtein(q, w) <= k
      ensures w in Within(Gather(dict.buckets, order, dict.buckets.Keys), q, k)
    {
      var key :| key in dict.buckets && w in dict.buckets[key];
      assert key in multiset(dict.buckets.Keys);
      GatherMember(dict.buckets, order, dict.buckets.Keys, w);
    }
  }
}
