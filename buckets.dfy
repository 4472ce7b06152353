/**
 * A bucket index is a map from keys to lists of words. A search visits the
 * keys in some order (the C# code runs Parallel.ForEach over the key
 * collection, which fixes none) and takes the words of the buckets whose key
 * passes the filter. This module states what such a search collects, and that
 * the collected words do not depend on the order the keys were visited in.
 */
module Buckets {
  import opened EditDistance

  /** order visits every key of keys exactly once. */
  predicate Enumerates<K>(order: seq<K>, keys: set<K>)
  {
    multiset(order) == multiset(keys)
  }

  /** No key occurs twice. */
  predicate Distinct<K(==)>(keys: seq<K>)
  {
    forall i, j :: 0 <= i < j < |keys| ==> keys[i] != keys[j]
  }

  /** The map after filing words[i] alone under keys[i], one after the other. */
  function Filed<K>(m: map<K, seq<string>>, keys: seq<K>, words: seq<string>): map<K, seq<string>>
    requires |keys| == |words|
  {
    if keys == [] then m
    else Filed(m, keys[..|keys| - 1], words[..|words| - 1])[keys[|keys| - 1] := [words[|words| - 1]]]
  }

  /** Filing touches no existing bucket whose key is not reused, and adds only the given keys. */
  lemma {:induction false} FiledKeys<K>(m: map<K, seq<string>>, keys: seq<K>, words: seq<string>)
    requires |keys| == |words|
    requires forall i :: 0 <= i < |keys| ==> keys[i] !in m
    ensures forall key :: key in m ==> key in Filed(m, keys, words) && Filed(m, keys, words)[key] == m[key]
    ensures forall key :: key in Filed(m, keys, words) ==> key in m || key in keys
  {
    if keys != [] {
      var n := |keys| - 1;
      FiledKeys(m, keys[..n], words[..n]);
      assert forall key :: key in keys[..n] ==> key in keys;
    }
  }

  /** Each word sits alone in the bucket of its key. */
  lemma {:induction false} FiledNew<K>(m: map<K, seq<string>>, keys: seq<K>, words: seq<string>)
    requires |keys| == |words| && Distinct(keys)
    ensures forall i :: 0 <= i < |keys| ==> keys[i] in Filed(m, keys, words) && Filed(m, keys, words)[keys[i]] == [words[i]]
  {
    if keys != [] {
      var n := |keys| - 1;
      FiledNew(m, keys[..n], words[..n]);
      forall i | 0 <= i < n
        ensures keys[i] in Filed(m, keys[..n], words[..n]) && Filed(m, keys[..n], words[..n])[keys[i]] == [words[i]]
      {
        assert keys[..n][i] == keys[i] && words[..n][i] == words[i];
      }
    }
  }

  /** Filing under new, distinct keys adds one bucket per word. */
  lemma {:induction false} FiledSize<K>(m: map<K, seq<string>>, keys: seq<K>, words: seq<string>)
    requires |keys| == |words| && Distinct(keys)
    requires forall i :: 0 <= i < |keys| ==> keys[i] !in m
    ensures |Filed(m, keys, words)| == |m| + |keys|
  {
    if keys != [] {
      var n := |keys| - 1;
      FiledSize(m, keys[..n], words[..n]);
      FiledKeys(m, keys[..n], words[..n]);
    }
  }

  /** The keys of order that pass the filter keep, in order. */
  function Kept<K(==)>(order: seq<K>, keep: set<K>): (r: seq<K>)
    ensures forall key :: key in r ==> key in order && key in keep
    ensures forall key :: key in order && key in keep ==> key in r
  {
    if order == [] then []
    else Kept(order[..|order| - 1], keep) + (if order[|order| - 1] in keep then [order[|order| - 1]] else [])
  }

  /** The words of the buckets whose key passes keep, bucket after bucket in the order visited. */
  function Gather<K(==)>(m: map<K, seq<string>>, order: seq<K>, keep: set<K>): seq<string>
    requires forall key :: key in order ==> key in m
  {
    if order == [] then []
    else
      var last := order[|order| - 1];
      Gather(m, order[..|order| - 1], keep) + (if last in keep then m[last] else [])
  }

  lemma {:induction false} GatherAppend<K>(m: map<K, seq<string>>, a: seq<K>, b: seq<K>, keep: set<K>)
    requires forall key :: key in a + b ==> key in m
    ensures Gather(m, a + b, keep) == Gather(m, a, keep) + Gather(m, b, keep)
    decreases |b|
  {
    if b == [] {
      assert a + b == a;
    } else {
      var b' := b[..|b| - 1];
      assert (a + b)[..|a + b| - 1] == a + b';
      GatherAppend(m, a, b', keep);
    }
  }

  /** A word is collected exactly when some visited key that passes the filter holds it. */
  lemma {:induction false} GatherMember<K>(m: map<K, seq<string>>, order: seq<K>, keep: set<K>, w: string)
    requires forall key :: key in order ==> key in m
    ensures w in Gather(m, order, keep) <==> exists key :: key in order && key in keep && w in m[key]
  {
    if order != [] {
      var order' := order[..|order| - 1];
      GatherMember(m, order', keep, w);
      assert forall key :: key in order ==> key in order' || key == order[|order| - 1];
    }
  }

  /** Removing the entry at idx from a sequence. */
  lemma RemoveAt<K>(o: seq<K>, idx: nat)
    requires idx < |o|
    ensures o == o[..idx] + [o[idx]] + o[idx + 1..]
    ensures multiset(o[..idx] + o[idx + 1..]) == multiset(o) - multiset{o[idx]}
    ensures forall key :: key in o[..idx] + o[idx + 1..] ==> key in o
  {
    assert o == o[..idx] + [o[idx]] + o[idx + 1..];
  }

  /** Moving one key from the keys still to visit to the end of those visited. */
  lemma TakeOne<K>(order: seq<K>, remaining: set<K>, key: K)
    requires key in remaining
    ensures multiset(order + [key]) + multiset(remaining - {key}) == multiset(order) + multiset(remaining)
  {
    SplitOff(remaining, key);
  }

  /** The words of the bucket at position idx, and those of the other visited buckets. */
  lemma GatherSplit<K>(m: map<K, seq<string>>, o: seq<K>, idx: nat, keep: set<K>)
    requires idx < |o| && forall key :: key in o ==> key in m
    ensures forall key :: key in o[..idx] + o[idx + 1..] ==> key in m
    ensures multiset(o[..idx] + o[idx + 1..]) == multiset(o) - multiset{o[idx]}
    ensures multiset(Gather(m, o, keep)) ==
              multiset(Gather(m, o[..idx] + o[idx + 1..], keep)) + multiset(Gather(m, [o[idx]], keep))
  {
    var a, b := o[..idx], o[idx + 1..];
    RemoveAt(o, idx);
    GatherAppend(m, a, b, keep);
    GatherAppend(m, a, [o[idx]], keep);
    GatherAppend(m, a + [o[idx]], b, keep);
  }

  /**
   * The words collected are the same multiset whichever order the keys are
   * visited in: each bucket contributes its words once.
   */
  lemma {:induction false} GatherOrderIrrelevant<K>(m: map<K, seq<string>>, o1: seq<K>, o2: seq<K>, keep: set<K>)
    requires multiset(o1) == multiset(o2)
    requires (forall key :: key in o1 ==> key in m) && (forall key :: key in o2 ==> key in m)
    ensures multiset(Gather(m, o1, keep)) == multiset(Gather(m, o2, keep))
    decreases |o1|
  {
    if o1 == [] {
      assert |o2| == |multiset(o2)| == 0;
    } else {
      var last := o1[|o1| - 1];
      assert last in multiset(o2);
      var idx :| 0 <= idx < |o2| && o2[idx] == last;
      GatherSplit(m, o1, |o1| - 1, keep);
      GatherSplit(m, o2, idx, keep);
      GatherOrderIrrelevant(m, o1[..|o1| - 1] + o1[|o1|..], o2[..idx] + o2[idx + 1..], keep);
    }
  }

  /** Taking one element out of a set takes one copy out of its multiset. */
  lemma SplitOff<K>(s: set<K>, x: K)
    requires x in s
    ensures multiset(s) == multiset(s - {x}) + multiset{x}
  {
  }

  lemma {:induction false} SetCard<K>(s: set<K>)
    ensures |multiset(s)| == |s|
    decreases |s|
  {
    if s != {} {
      var x :| x in s;
      SetCard(s - {x});
      SplitOff(s, x);
    }
  }

  /** The keys passing the filter, as visited, are the keys of the index that pass it, each once. */
  lemma {:induction false} KeptCount<K>(order: seq<K>, keys: set<K>, keep: set<K>)
    requires Enumerates(order, keys)
    ensures Enumerates(Kept(order, keep), keys * keep)
    ensures |Kept(order, keep)| == |keys * keep|
    decreases |order|
  {
    if order != [] {
      var last := order[|order| - 1];
      var order' := order[..|order| - 1];
      assert order == order' + [last];
      assert last in multiset(order);
      var keys' := keys - {last};
      SplitOff(keys, last);
      assert multiset(order') == multiset(order) - multiset{last};
      KeptCount(order', keys', keep);
      if last in keep {
        assert keys * keep - {last} == keys' * keep;
        SplitOff(keys * keep, last);
      } else {
        assert keys * keep == keys' * keep;
      }
    }
    SetCard(keys * keep);
  }

  /** The words within edit distance k of the query q, in order, with repetitions. */
  function Within(words: seq<string>, q: string, k: int): (r: seq<string>)
    ensures |r| <= |words|
    ensures forall w :: w in r <==> w in words && Levenshtein(q, w) <= k
  {
    if words == [] then []
    else
      var last := words[|words| - 1];
      Within(words[..|words| - 1], q, k) + (if Levenshtein(q, last) <= k then [last] else [])
  }

  lemma {:induction false} WithinAppend(a: seq<string>, b: seq<string>, q: string, k: int)
    ensures Within(a + b, q, k) == Within(a, q, k) + Within(b, q, k)
    decreases |b|
  {
    if b == [] {
      assert a + b == a;
    } else {
      var b' := b[..|b| - 1];
      assert (a + b)[..|a + b| - 1] == a + b';
      WithinAppend(a, b', q, k);
    }
  }

  /** A word occurs among the matches as often as among the words when it is within k, otherwise never. */
  lemma {:induction false} WithinCount(words: seq<string>, q: string, k: int, w: string)
    ensures multiset(Within(words, q, k))[w] == if Levenshtein(q, w) <= k then multiset(words)[w] else 0
    decreases |words|
  {
    if words != [] {
      var words' := words[..|words| - 1];
      assert words == words' + [words[|words| - 1]];
      WithinCount(words', q, k, w);
    }
  }

  /** Scanning the same words in another order finds the same multiset of matches. */
  lemma WithinOrderIrrelevant(a: seq<string>, b: seq<string>, q: string, k: int)
    requires multiset(a) == multiset(b)
    ensures multiset(Within(a, q, k)) == multiset(Within(b, q, k))
  {
    forall w
      ensures multiset(Within(a, q, k))[w] == multiset(Within(b, q, k))[w]
    {
      WithinCount(a, q, k, w);
      WithinCount(b, q, k, w);
    }
  }

  /**
   * The matches of a filtered scan are the same multiset whichever order
   * the keys are visited in.
   */
  lemma ScanOrderIrrelevant<K>(m: map<K, seq<string>>, o1: seq<K>, o2: seq<K>, keep: set<K>, q: string, k: int)
    requires multiset(o1) == multiset(o2)
    requires (forall key :: key in o1 ==> key in m) && (forall key :: key in o2 ==> key in m)
    ensures multiset(Within(Gather(m, o1, keep), q, k)) == multiset(Within(Gather(m, o2, keep), q, k))
  {
    GatherOrderIrrelevant(m, o1, o2, keep);
    WithinOrderIrrelevant(Gather(m, o1, keep), Gather(m, o2, keep), q, k);
  }

  /** The matches of one complete visit are those of every complete visit, up to order. */
  lemma AnyOrder<K>(m: map<K, seq<string>>, order: seq<K>, q: string, k: int)
    requires Enumerates(order, m.Keys) && forall key :: key in order ==> key in m
    ensures forall o :: Enumerates(o, m.Keys) && (forall key :: key in o ==> key in m) ==>
              multiset(Within(Gather(m, order, m.Keys), q, k)) == multiset(Within(Gather(m, o, m.Keys), q, k))
  {
    forall o | Enumerates(o, m.Keys) && (forall key :: key in o ==> key in m)
      ensures multiset(Within(Gather(m, order, m.Keys), q, k)) == multiset(Within(Gather(m, o, m.Keys), q, k))
    {
      ScanOrderIrrelevant(m, order, o, m.Keys, q, k);
    }
  }

  lemma WithinNone(words: seq<string>, q: string, k: int)
    requires forall w :: w in words ==> Levenshtein(q, w) > k
    ensures Within(words, q, k) == []
  {
    if Within(words, q, k) != [] {
      assert Within(words, q, k)[0] in Within(words, q, k);
    }
  }

  /**
   * Filtering the buckets first loses nothing when every bucket the filter
   * drops holds only words farther than k from q: the matches equal those of
   * a scan of every bucket.
   */
  lemma {:induction false} PruningIsExact<K>(m: map<K, seq<string>>, order: seq<K>, keep: set<K>, q: string, k: int)
    requires forall key :: key in order ==> key in m
    requires forall key, w :: key in order && key !in keep && w in m[key] ==> Levenshtein(q, w) > k
    ensures Within(Gather(m, order, keep), q, k) == Within(Gather(m, order, m.Keys), q, k)
  {
    if order != [] {
      var last := order[|order| - 1];
      var order' := order[..|order| - 1];
      PruningIsExact(m, order', keep, q, k);
      WithinAppend(Gather(m, order', keep), if last in keep then m[last] else [], q, k);
      WithinAppend(Gather(m, order', m.Keys), m[last], q, k);
      if last !in keep {
        WithinNone(m[last], q, k);
      }
    }
  }
}
