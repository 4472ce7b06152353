# Fuzzy word suggestion by character histograms

A model of the search core of a spell-suggestion engine. Each dictionary word
is summarised by a histogram of its characters over a 28-symbol alphabet: the
letters `a`..`z`, the apostrophe and the hyphen. Words are filed in buckets
keyed by those histograms. A query scans the buckets. It skips every bucket
whose histogram is too far from the query's, using the filter cost FC, and
computes the true edit distance only for the words of the surviving buckets.

The model is split into modules:

- `Utils` (utils.dfy) is the alphabet codec `ord` and the table-filling
  `Distance` method of Utils.cs.
- `EditDistance` (levenshtein.dfy) is the recurrence that the table is
  proved to compute.
- `Histograms` (histograms.dfy) holds the counts, the two one-sided excess
  sums, FC and the 32-bit hash fold.
- `LowerBound` (lower_bound.dfy) proves that FC never exceeds the edit
  distance.
- `Buckets` (buckets.dfy) is the value-level view of a bucket dictionary:
  how filling files words, and which words a filtered scan visits.
- `SignatureHashing` (signature_hashing.dfy) and `FrequencyVectorHashing`
  (frequency_vector_hashing.dfy) are the classes of the two C# files, as
  classes over arrays and maps.

Where the code's own labels promise more than it does, the model follows the
code:

- `Distance` is labelled Damerau-Levenshtein (Utils.cs:21). Under that
  distance, "ab" and "ba" would be one transposition apart. The code writes
  its transposition candidate into `d[i-1, j-1]`, after the recurrence has
  read that cell for the last time. The returned value is therefore the
  plain Levenshtein distance, and "ab", "ba" are 2 apart
  (`EditDistance.SwapCostsTwo`).
- `Signature` overrides `GetHashCode` (SignatureHashing.cs:51-57) as if it
  were a value, but not `Equals`. So a `SignatDictionary` compares its keys
  by reference, and every line that `Fill` reads gets a new key holding a
  one-word bucket.
- `FrequencyVector` overrides both `GetHashCode` and `Equals`
  (FrequencyVectorHashing.cs:28-45). Its dictionary therefore has at most
  one key per histogram.

## Model

| member | source | states |
|---|---|---|
| Utils.Ord | Utils.cs:12-19 | `ord`: letters get 0..25 as `c - 'a'`; the code 26 belongs exactly to the apostrophe and code point 123, the code 27 exactly to the hyphen and code point 124. Its range and injectivity on the alphabet are the rows below |
| Utils.OrdOnAlphabet | Utils.cs:12-19 | On the alphabet, `ord` is the dense numbering: letters give `c - 'a'`, the apostrophe 26, the hyphen 27, all within 0..27 |
| Utils.OrdInjective | Utils.cs:12-19 | Two alphabet characters with the same code are the same character |
| Utils.IndexableChars | Utils.cs:18 | A character can index a 28-entry array exactly when it is in the alphabet or is one of the two characters after `z` (code points 123 and 124), which alias the codes of the apostrophe and the hyphen |
| Utils.LastCodeIsLast | Utils.cs:43-57 | The bookkeeping of `cp`: the row it records for a code is the last earlier row holding that code, or 0 if there is none |
| Utils.LastMatchIsLast | Utils.cs:44-54 | The bookkeeping of `cs`: the column it records is the last earlier column holding `p[i-1]`, or 0 if there is none |
| Utils.Distance | Utils.cs:22-61 | Returns the Levenshtein distance of p and s, counted in characters, for every input on which the code does not index out of range (for an empty p, C# counts the length of s in UTF-16 code units; see Left out) |
| Utils.FillRow | Utils.cs:34-56 | One pass of the outer loop leaves row i exact and column 0 intact. It can only lower the cells of row i-1, and every other row keeps its values |
| Utils.FillCell | Utils.cs:40-52 | The recurrence makes `d[i,j]` exact from its three neighbours. The transposition branch writes nothing but `d[i-1,j-1]`, only lowers it, and leaves it alone while `cs` is 0 |
| EditDistance.LevCell | Utils.cs:40-41 | A cell computed from its exact upper, left and diagonal neighbours is the edit distance of the two prefixes |
| EditDistance.EmptyDistance | Utils.cs:29-32 | The distance to or from the empty string is the other string's length |
| EditDistance.Symmetric | Utils.cs:22-61 | Distance(p, s) == Distance(s, p) |
| EditDistance.Bounds | Utils.cs:22-61 | The distance is at least the difference of the lengths and at most the larger length |
| EditDistance.ZeroIffEqual | Utils.cs:22-61 | The distance is 0 exactly when the strings are equal |
| EditDistance.SwapCostsTwo | Utils.cs:46-52 | Distance("ab", "ba") == 2: the adjacent transposition is not discounted |
| Histograms.HistogramSnoc | FrequencyVectorHashing.cs:19-20 | Reading one more character adds one to the entry of its code and changes no other entry |
| Histograms.OccAppend | SignatureHashing.cs:15-21 | The count of a code in a concatenation is the sum of the counts in the parts |
| Histograms.HistogramPermutation | SignatureHashing.cs:12-22 | Words with the same multiset of characters get the same histogram |
| Histograms.HistogramTotal | SignatureHashing.cs:12-22 | The 28 counts of a word add up to its length |
| Histograms.ExcessUpTo | SignatureHashing.cs:29-46 | A one-sided excess sum is never negative |
| Histograms.ExcessZero | SignatureHashing.cs:34-36 | The excess of x over y is 0 exactly when no entry of x exceeds y's |
| Histograms.ExcessDifference | SignatureHashing.cs:29-46 | The two one-sided excess sums differ by the difference of the totals |
| Histograms.FilterCostZero | SignatureHashing.cs:48-49 | FC is non-negative and symmetric; FC(x, x) is 0; FC is 0 exactly when all the counts agree |
| Histograms.FilterCostAboveGap | SignatureHashing.cs:48-49 | FC is at least the difference of the totals, that is, of the word lengths |
| Histograms.Int32 | SignatureHashing.cs:55 | Unchecked C# int arithmetic: the result is in the 32-bit signed range and congruent to the exact value modulo 2^32 |
| Histograms.AnagramsCollide | SignatureHashing.cs:51-57 | Anagrams get the same hash code, in the 32-bit range, and FC 0 |
| LowerBound.ExcessBelowLev | Utils.cs:40-41 | For every pair of prefixes, each one-sided excess of their histograms is at most their edit distance |
| LowerBound.FilterCostBelowDistance | SignatureHashing.cs:79 | FC(histogram(a), histogram(b)) <= Distance(a, b), so skipping a bucket with FC > k loses no word within distance k |
| Buckets.FiledKeys | SignatureHashing.cs:103-110 | Filing new keys keeps every old bucket unchanged and adds no key other than the new ones |
| Buckets.FiledNew | SignatureHashing.cs:108-109 | Each new key maps to the one-word bucket of its line |
| Buckets.FiledSize | SignatureHashing.cs:98-112 | Filing distinct new keys grows the dictionary by their number |
| Buckets.Kept | FrequencyVectorHashing.cs:80-82 | A visited key is kept exactly when it passes the filter |
| Buckets.GatherMember | SignatureHashing.cs:77-84 | A word is emitted exactly when some visited key that passes the filter holds it |
| Buckets.GatherOrderIrrelevant | SignatureHashing.cs:77 | Visiting the keys in any other order emits the same multiset of words |
| Buckets.WithinOrderIrrelevant | FrequencyVectorHashing.cs:83-89 | Scanning the same words in another order finds the same multiset of matches |
| Buckets.ScanOrderIrrelevant | FrequencyVectorHashing.cs:78-91 | Visiting the keys in another order gives the same multiset of matches from the filtered scan |
| Buckets.AnyOrder | FrequencyVectorHashing.cs:78 | Every visit of all the keys, in whatever order, finds the matches of any one visit, as a multiset |
| Buckets.KeptCount | FrequencyVectorHashing.cs:80-82 | Over a visit of every key once, the kept keys are each passing key once, so mt counts them |
| Buckets.Within | FrequencyVectorHashing.cs:86-88 | A word is a match exactly when it is scanned and its distance is at most k |
| Buckets.WithinAppend | FrequencyVectorHashing.cs:83-89 | Scanning two word lists in turn gives the matches of the first followed by those of the second |
| Buckets.PruningIsExact | FrequencyVectorHashing.cs:78-91 | If the dropped buckets hold only words farther than k, the pruned scan matches exactly what a scan of every bucket matches |
| SignatureHashing.Signature.constructor | SignatureHashing.cs:12-22 | The signature holds 28 non-negative counts: entry c is the number of characters of s with code c |
| SignatureHashing.Signature.Get | SignatureHashing.cs:24-27 | The indexer returns the stored count, never negative |
| SignatureHashing.Signature.FCHelper | SignatureHashing.cs:29-46 | With plus, the excess of x's counts over y's; without, y's over x's |
| SignatureHashing.Signature.FC | SignatureHashing.cs:48-49 | The larger of the two excess sums: the filter cost of the two count vectors |
| SignatureHashing.Signature.GetHashCode | SignatureHashing.cs:51-57 | The fold hash*19 + count from 17 in wrapping 32-bit arithmetic; it depends on the counts alone |
| SignatureHashing.SignatDictionary.constructor | SignatureHashing.cs:93-96 | A new dictionary is empty |
| SignatureHashing.SignatDictionary.AddLine | SignatureHashing.cs:103-110 | The freshly built signature is never already a key, so the line gets a new bucket `[line]` and every other bucket is unchanged |
| SignatureHashing.SignatDictionary.Fill | SignatureHashing.cs:98-112 | Line i lands in the fresh key added[i] with bucket `[lines[i]]`; the keys are distinct and Count grows by the number of lines |
| SignatureHashing.SignatString.constructor | SignatureHashing.cs:65-69 | Keeps the text and its signature |
| SignatureHashing.SignatString.GetSuggestionsFC | SignatureHashing.cs:75-85 | Visits every key once. It emits the words of exactly the buckets whose FC against the query is at most k, and no word within distance k is missed |
| SignatureHashing.KeepsEveryMatch | SignatureHashing.cs:79 | Every dictionary word within distance k of the query is in a bucket that passes the filter |
| FrequencyVectorHashing.FrequencyVector.constructor | FrequencyVectorHashing.cs:16-21 | vec has 28 non-negative entries, and entry c counts the characters with code c; this is entrywise the same as the Signature of the same word |
| FrequencyVectorHashing.FrequencyVector.Get | FrequencyVectorHashing.cs:23-26 | The indexer returns the stored count, never negative |
| FrequencyVectorHashing.FrequencyVector.GetHashCode | FrequencyVectorHashing.cs:28-34 | The wrapping 32-bit fold of the counts from 17 |
| FrequencyVectorHashing.FrequencyVector.EqualsHelper | FrequencyVectorHashing.cs:36-42 | True exactly when all 28 entries agree |
| FrequencyVectorHashing.FrequencyVector.Equals | FrequencyVectorHashing.cs:44-45 | True exactly when obj is a FrequencyVector with the same 28 entries, which makes it reflexive and symmetric |
| FrequencyVectorHashing.EqualVectorsHashAlike | FrequencyVectorHashing.cs:28-45 | Vectors that are Equal have the same hash code |
| FrequencyVectorHashing.FreqVecDictionary.constructor | FrequencyVectorHashing.cs:112-115 | A new dictionary is empty |
| FrequencyVectorHashing.FreqString.constructor | FrequencyVectorHashing.cs:54-58 | Keeps the text and its frequency vector |
| FrequencyVectorHashing.FreqString.ScanBucket | FrequencyVectorHashing.cs:83-90 | Counts every word of the bucket and collects exactly the words within distance k. It reports a missing frequency exactly when one of those words has none |
| FrequencyVectorHashing.FreqString.VisitKey | FrequencyVectorHashing.cs:80-91 | A key is scanned exactly when it passes the filter, and then its bucket is scanned |
| FrequencyVectorHashing.FreqString.Collect | FrequencyVectorHashing.cs:78-92 | After visiting every key once: mt counts the passing keys, wt the words of their buckets, and the matches are the words of those buckets within distance k |
| FrequencyVectorHashing.FreqString.Top | FrequencyVectorHashing.cs:102-103 | Writes out the first min(topOptions, count) matches, and none when topOptions <= 0 |
| FrequencyVectorHashing.FreqString.GetSuggestions | FrequencyVectorHashing.cs:67-105 | Reports a missing frequency exactly when some word within distance k has none. Otherwise: mt is the number of passing keys, and wt the number of words in their buckets. The matches equal those of a brute-force scan of every bucket, and, as a multiset, those of a scan in any other key order. The prefix written out has length min(topOptions, count) |
| FrequencyVectorHashing.Advance | FrequencyVectorHashing.cs:80-89 | Visiting one more key adds its bucket's counts and matches to mt, wt and the matches exactly when it passes the filter |
| FrequencyVectorHashing.Settle | FrequencyVectorHashing.cs:78-101 | A complete key loop counts each passing key once, matches what a full scan matches, and leaves no match without a frequency |
| FrequencyVectorHashing.PrunedScanIsExact | FrequencyVectorHashing.cs:78-91 | Filtering by FC drops no word within distance k, so the pruned scan and the brute-force scan find the same matches |

## Left out

- Program.cs is not part of this model: the GTK editor, the completion
  provider and the scoring in `SortSuggestions`.
- `Main` (SignatureHashing.cs:115-131) is not part of this model.
- Reading files: `SignatDictionary.Fill` takes the sequence of lines the
  `StreamReader` would yield.
- `Parallel.ForEach` and `ConcurrentBag` become a sequential loop.
  - The loop visits the keys in an arbitrary order, returned as a ghost
    sequence that enumerates the keys.
  - The results are stated up to that order. `Buckets.GatherOrderIrrelevant`
    and `Buckets.ScanOrderIrrelevant` show that the order does not change the
    multiset of words or of matches, and `GetSuggestions` states this.
  - Thread interleaving is not modelled.
- `WriteLine` in `get_suggestions_fc` is modelled as the returned sequence of
  emitted words.
- In `GetSuggestions`, several things are not modelled:
  - the double scores `Pow(k - dist + 1, 20) * occurencesDict[s]`;
  - the `Comparator`, and the sort of the matches;
  - the elapsed-time measurement;
  - the text formatting of the output.
- FrequencyVectorHashing.FreqString.GetSuggestions: the shown prefix is taken
  from the matches in the order collected, not after the descending sort by
  score.
  - Only the frequency dictionary's keys matter. A match missing from it
    throws `KeyNotFoundException` inside `Parallel.ForEach`, which reaches
    the caller wrapped in an `AggregateException`. The `KeyNotFound`
    outcome models that exception.
- FrequencyVectorHashing.FreqString.VisitKey: `FC` on two `FrequencyVector`s
  is called but not defined in the C# files.
  - It is assumed to be the same filter cost as `Signature.FC`, that is
    `Histograms.FilterCost` on the two count vectors.
- FrequencyVectorHashing.FreqVecDictionary.constructor: nothing in the C#
  files fills a `FreqVecDictionary`.
  - Its `Valid` states what a dictionary filed by histogram must satisfy:
    each word is stored under the vector of its own counts, and no two keys
    hold equal counts.
- `EnsureCapacity` pre-sizing is not modelled, because it does not change
  behaviour.
- The read-only properties `Signat`, `text`, `Frequency` and `Text` are the
  `const` fields themselves.
- SignatureHashing.Signature.constructor: requires every character to be
  indexable. The C# code throws `IndexOutOfRangeException` otherwise; that
  exception is not modelled.
  - The same holds for `FrequencyVector`, `SignatString` and `FreqString`.
- SignatureHashing.SignatDictionary.Fill: requires every line to be
  indexable.
  - Nothing checks the dictionary lines (SignatureHashing.cs:101-103).
  - A line with a character outside the range of `ord` makes `Fill` throw
    `IndexOutOfRangeException` after the earlier lines have been filed.
  - That partial fill is not modelled.
- Utils.Distance: requires the characters that the code passes to `ord` to
  be indexable. The `IndexOutOfRangeException` raised otherwise is not
  modelled.
- Utils.Distance: lengths are counted in Unicode scalar values, the
  characters of a Dafny string. C# strings are sequences of UTF-16 code
  units, and `s.Length` (Utils.cs:24, 31-32, 60) counts those.
  - The two agree on every input the rest of the core passes, since
    indexable words are ASCII.
  - They differ only for `Distance("", s)` with a character of `s` outside
    the Basic Multilingual Plane: C# counts it twice, the model once.
  - A string holding a lone surrogate cannot be written as a Dafny string.
  - Neither case is modelled.
- The indexers require an index in 0..27. The C# code throws otherwise.
- Counts, counters and distances are unbounded integers. C# `int` overflow
  could only occur with words of more than 2^31 characters or dictionaries
  of more than 2^31 entries.
  - The hash fold is the one place where the code wraps on purpose, and it
    is modelled exactly.
