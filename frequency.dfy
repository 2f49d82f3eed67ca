/** Word and duplicate statistics: the frequency/power table of the lemmatized texts,
    its conversion into a list sorted by frequency, the duplicate counter and the
    median of counts. */
module Frequency {
  import opened Strings
  import opened Seqs
  import opened Schema
  import opened Classifier

  /** The words of one text: its pieces between single spaces (`el.split(" ")`),
      so consecutive spaces produce empty words. */
  function Tokens(s: string): (r: seq<string>)
    ensures |r| >= 1
  {
    SplitOn(s, " ")
  }

  /** The words of all texts, in order. */
  function AllTokens(arr: seq<string>): seq<string>
    decreases |arr|
  {
    if |arr| == 0 then [] else AllTokens(arr[..|arr| - 1]) + Tokens(arr[|arr| - 1])
  }

  /** Word power: the number of texts among whose words `w` occurs. */
  function Power(arr: seq<string>, w: string): (r: nat)
    ensures r <= |arr|
    decreases |arr|
  {
    if |arr| == 0 then 0
    else Power(arr[..|arr| - 1], w) + (if w in Tokens(arr[|arr| - 1]) then 1 else 0)
  }

  /** The key function under which de-duplication keeps one copy of each word. */
  function Id(w: string): string
  {
    w
  }

  lemma HasKeyId(s: seq<string>, k: string)
    ensures HasKey(s, Id, k) <==> k in s
  {
    if k in s {
      var i :| 0 <= i < |s| && s[i] == k;
      assert Id(s[i]) == k;
    }
  }

  /** The distinct elements of `s`, in order of first appearance (`[...new Set(s)]`). */
  function Distinct(s: seq<string>): seq<string>
  {
    DedupBy(s, Id)
  }

  lemma DistinctSnoc(s: seq<string>, x: string)
    ensures Distinct(s + [x]) == if x in s then Distinct(s) else Distinct(s) + [x]
  {
    assert (s + [x])[..|s|] == s;
    HasKeyId(s, x);
  }

  lemma DistinctMembers(s: seq<string>)
    ensures forall i, j :: 0 <= i < j < |Distinct(s)| ==> Distinct(s)[i] != Distinct(s)[j]
    ensures forall w :: w in Distinct(s) <==> w in s
  {
    DedupByProperties(s, Id);
    forall w
      ensures w in Distinct(s) <==> w in s
    {
      HasKeyId(s, w);
      HasKeyId(Distinct(s), w);
    }
  }

  // ---------------------------------------------------------------------------
  // countWordFrequencyAndPower

  /** A table entry: `[frequency, word power]`. */
  datatype Counts = Counts(frequency: nat, power: nat)

  /** A frequency object: its keys in insertion order and their values. */
  datatype FrequencyTable = FrequencyTable(keys: seq<string>, counts: map<string, Counts>)

  /** The table `countWordFrequencyAndPower(arr)` builds: a key per distinct word in
      order of first appearance, holding the word's number of occurrences and its power. */
  ghost function FrequencyOf(arr: seq<string>): FrequencyTable
  {
    var all := AllTokens(arr);
    FrequencyTable(Distinct(all), map w | w in all :: Counts(Occ(all, w), Power(arr, w)))
  }

  lemma AllTokensSnoc(arr: seq<string>, i: nat)
    requires i < |arr|
    ensures AllTokens(arr[..i + 1]) == AllTokens(arr[..i]) + Tokens(arr[i])
    ensures forall w :: Power(arr[..i + 1], w) == Power(arr[..i], w) + (if w in Tokens(arr[i]) then 1 else 0)
  {
    assert arr[..i + 1][..i] == arr[..i];
  }

  /** The state of the frequency object after counting the words `s` of the texts `done`
      (plus one power for each word of `bonus`, the distinct words of the current text
      handled so far). */
  ghost predicate WordTally(counts: map<string, Counts>, s: seq<string>, done: seq<string>, bonus: seq<string>)
  {
    && (forall w :: w in counts <==> w in s)
    && (forall w :: w in counts ==>
          counts[w] == Counts(Occ(s, w), Power(done, w) + (if w in bonus then 1 else 0)))
  }

  /** One word of the current text: created at `[0, 0]` on first sight, then its
      frequency goes up. */
  lemma FrequencyStep(counts: map<string, Counts>, keys: seq<string>, counts': map<string, Counts>, keys': seq<string>,
                      s: seq<string>, done: seq<string>, word: string)
    requires keys == Distinct(s) && WordTally(counts, s, done, [])
    requires word !in s ==> Power(done, word) == 0
    requires keys' == if word in counts then keys else keys + [word]
    requires word in counts ==> counts' == counts[word := counts[word].(frequency := counts[word].frequency + 1)]
    requires word !in counts ==> counts' == counts[word := Counts(1, 0)]
    ensures keys' == Distinct(s + [word]) && WordTally(counts', s + [word], done, [])
  {
    DistinctSnoc(s, word);
    forall w
      ensures w in counts' <==> w in s + [word]
      ensures w in counts' ==> counts'[w] == Counts(Occ(s + [word], w), Power(done, w))
    {
      OccSnoc(s, word, w);
      OccPositive(s, word);
    }
  }

  /** One distinct word of the current text: its power goes up. */
  lemma PowerStep(counts: map<string, Counts>, s: seq<string>, done: seq<string>, bonus: seq<string>, word: string)
    requires WordTally(counts, s, done, bonus) && word in s && word !in bonus
    ensures WordTally(counts[word := counts[word].(power := counts[word].power + 1)], s, done, bonus + [word])
  {
  }

  /** After the distinct words of text `i`, the state is that of the first i + 1 texts. */
  lemma TextDone(counts: map<string, Counts>, arr: seq<string>, i: nat)
    requires i < |arr|
    requires WordTally(counts, AllTokens(arr[..i]) + Tokens(arr[i]), arr[..i], Distinct(Tokens(arr[i])))
    ensures WordTally(counts, AllTokens(arr[..i + 1]), arr[..i + 1], [])
  {
    AllTokensSnoc(arr, i);
    DistinctMembers(Tokens(arr[i]));
  }

  /** The first inner loop of `countWordFrequencyAndPower` over the words of one text:
      a word seen for the first time gets the key `[0, 0]`, then its frequency goes up. */
  method CountOccurrences(keys: seq<string>, counts: map<string, Counts>, words: seq<string>, ghost done: seq<string>)
    returns (keys': seq<string>, counts': map<string, Counts>)
    requires keys == Distinct(AllTokens(done)) && WordTally(counts, AllTokens(done), done, [])
    ensures keys' == Distinct(AllTokens(done) + words)
    ensures WordTally(counts', AllTokens(done) + words, done, [])
  {
    ghost var seen := AllTokens(done);
    keys', counts' := keys, counts;
    assert seen + words[..0] == seen;
    for j := 0 to |words|
      invariant keys' == Distinct(seen + words[..j])
      invariant WordTally(counts', seen + words[..j], done, [])
    {
      var word := words[j];
      assert seen + words[..j + 1] == (seen + words[..j]) + [word];
      if word !in seen + words[..j] {
        PowerZero(done, word);
      }
      ghost var counts0, keys0 := counts', keys';
      if word !in counts' {
        counts' := counts'[word := Counts(0, 0)];
        keys' := keys' + [word];
      }
      counts' := counts'[word := counts'[word].(frequency := counts'[word].frequency + 1)];
      FrequencyStep(counts0, keys0, counts', keys', seen + words[..j], done, word);
    }
    assert words[..|words|] == words;
  }

  /** The second inner loop: the power of each distinct word of the text goes up by one. */
  method AddPowers(counts: map<string, Counts>, words: seq<string>, ghost s: seq<string>, ghost done: seq<string>)
    returns (counts': map<string, Counts>)
    requires WordTally(counts, s, done, [])
    requires forall w :: w in words ==> w in s
    ensures WordTally(counts', s, done, Distinct(words))
  {
    var uniqueWords := Distinct(words);
    DistinctMembers(words);
    counts' := counts;
    assert uniqueWords[..0] == [];
    for m := 0 to |uniqueWords|
      invariant WordTally(counts', s, done, uniqueWords[..m])
    {
      var word := uniqueWords[m];
      assert uniqueWords[..m + 1] == uniqueWords[..m] + [word];
      assert word !in uniqueWords[..m];
      PowerStep(counts', s, done, uniqueWords[..m], word);
      counts' := counts'[word := counts'[word].(power := counts'[word].power + 1)];
    }
    assert uniqueWords[..|uniqueWords|] == uniqueWords;
  }

  /** `countWordFrequencyAndPower`: per text, every word's frequency goes up by one per
      occurrence (creating the key on first sight), then every distinct word's power
      goes up by one. */
  method CountWordFrequencyAndPower(arr: seq<string>) returns (t: FrequencyTable)
    ensures t == FrequencyOf(arr)
  {
    var keys: seq<string> := [];
    var counts: map<string, Counts> := map[];
    for i := 0 to |arr|
      invariant keys == Distinct(AllTokens(arr[..i]))
      invariant WordTally(counts, AllTokens(arr[..i]), arr[..i], [])
    {
      var words := Tokens(arr[i]);
      keys, counts := CountOccurrences(keys, counts, words, arr[..i]);
      counts := AddPowers(counts, words, AllTokens(arr[..i]) + words, arr[..i]);
      TextDone(counts, arr, i);
      AllTokensSnoc(arr, i);
    }
    assert arr[..|arr|] == arr;
    t := FrequencyTable(keys, counts);
  }

  /** A word's power is at least one and at most its frequency. */
  lemma {:induction false} PowerBounds(arr: seq<string>, w: string)
    requires w in AllTokens(arr)
    ensures 1 <= Power(arr, w) <= Occ(AllTokens(arr), w)
    decreases |arr|
  {
    var n := |arr|;
    var init := arr[..n - 1];
    var last := Tokens(arr[n - 1]);
    OccConcat(AllTokens(init), last, w);
    OccPositive(last, w);
    if w in AllTokens(init) {
      PowerBounds(init, w);
    } else {
      OccPositive(AllTokens(init), w);
      PowerZero(init, w);
    }
  }

  lemma {:induction false} PowerZero(arr: seq<string>, w: string)
    requires w !in AllTokens(arr)
    ensures Power(arr, w) == 0
    decreases |arr|
  {
    if |arr| > 0 {
      PowerZero(arr[..|arr| - 1], w);
    }
  }

  /** The table's values: every key holds counts in the ranges the definitions promise. */
  lemma FrequencyTableBounds(arr: seq<string>, w: string)
    requires w in FrequencyOf(arr).counts
    ensures 1 <= FrequencyOf(arr).counts[w].power <= FrequencyOf(arr).counts[w].frequency
    ensures FrequencyOf(arr).counts[w].power <= |arr|
  {
    PowerBounds(arr, w);
  }

  /** Sum of the occurrence counts in `s` of the words of `keys`. */
  function SumOcc(keys: seq<string>, s: seq<string>): nat
    decreases |keys|
  {
    if |keys| == 0 then 0 else SumOcc(keys[..|keys| - 1], s) + Occ(s, keys[|keys| - 1])
  }

  lemma {:induction false} SumOccSnocWord(keys: seq<string>, s: seq<string>, x: string)
    ensures SumOcc(keys, s + [x]) == SumOcc(keys, s) + Occ(keys, x)
    decreases |keys|
  {
    if |keys| > 0 {
      SumOccSnocWord(keys[..|keys| - 1], s, x);
      OccConcat(s, [x], keys[|keys| - 1]);
    }
  }

  lemma {:induction false} SumOccSnocKey(keys: seq<string>, s: seq<string>, x: string)
    ensures SumOcc(keys + [x], s) == SumOcc(keys, s) + Occ(s, x)
  {
    assert (keys + [x])[..|keys|] == keys;
  }

  lemma {:induction false} OccDistinct(keys: seq<string>, x: string)
    requires forall i, j :: 0 <= i < j < |keys| ==> keys[i] != keys[j]
    ensures Occ(keys, x) == if x in keys then 1 else 0
    decreases |keys|
  {
    if |keys| > 0 {
      var init := keys[..|keys| - 1];
      OccDistinct(init, x);
      assert keys == init + [keys[|keys| - 1]];
    }
  }

  /** Counting each distinct element's occurrences accounts for every element once. */
  lemma {:induction false} SumOccDistinct(s: seq<string>)
    ensures SumOcc(Distinct(s), s) == |s|
    decreases |s|
  {
    if |s| > 0 {
      var init, x := s[..|s| - 1], s[|s| - 1];
      assert s == init + [x];
      SumOccDistinct(init);
      DistinctSnoc(init, x);
      SumOccSnocWord(Distinct(init), init, x);
      DistinctMembers(init);
      OccDistinct(Distinct(init), x);
      if x !in init {
        SumOccSnocKey(Distinct(init), s, x);
        OccConcat(init, [x], x);
        OccPositive(init, x);
      }
    }
  }

  /** Sum of the frequencies over the keys of a table. */
  function TotalFrequency(keys: seq<string>, counts: map<string, Counts>): int
    requires forall k :: k in keys ==> k in counts
    decreases |keys|
  {
    if |keys| == 0 then 0
    else TotalFrequency(keys[..|keys| - 1], counts) + counts[keys[|keys| - 1]].frequency
  }

  lemma {:induction false} TotalFrequencyIsSumOcc(keys: seq<string>, arr: seq<string>)
    requires forall k :: k in keys ==> k in AllTokens(arr)
    ensures forall k :: k in keys ==> k in FrequencyOf(arr).counts
    ensures TotalFrequency(keys, FrequencyOf(arr).counts) == SumOcc(keys, AllTokens(arr))
    decreases |keys|
  {
    if |keys| > 0 {
      TotalFrequencyIsSumOcc(keys[..|keys| - 1], arr);
    }
  }

  /** The frequencies of a table add up to the number of `split(" ")` pieces of the texts. */
  lemma FrequenciesSumToTokenCount(arr: seq<string>)
    ensures forall k :: k in FrequencyOf(arr).keys ==> k in FrequencyOf(arr).counts
    ensures TotalFrequency(FrequencyOf(arr).keys, FrequencyOf(arr).counts) == |AllTokens(arr)|
  {
    DistinctMembers(AllTokens(arr));
    TotalFrequencyIsSumOcc(FrequencyOf(arr).keys, arr);
    SumOccDistinct(AllTokens(arr));
  }

  // ---------------------------------------------------------------------------
  // countDuplicates

  /** A duplicate-count object: its keys in insertion order and their counts. */
  datatype DuplicateTable = DuplicateTable(keys: seq<string>, counts: map<string, nat>)

  /** The property keys `el[field]` gives for the rows (`"undefined"` past a row's end). */
  function FieldKeys(arr: seq<Row>, field: nat): (r: seq<string>)
    ensures |r| == |arr|
    ensures forall k :: 0 <= k < |arr| ==> r[k] == PropertyKey(At(arr[k], field))
  {
    seq(|arr|, k requires 0 <= k < |arr| => PropertyKey(At(arr[k], field)))
  }

  /** The table `countDuplicates(arr, field)` builds: a key per distinct field value in
      order of first appearance, holding its number of occurrences. */
  ghost function DuplicatesOf(arr: seq<Row>, field: nat): DuplicateTable
  {
    var vs := FieldKeys(arr, field);
    DuplicateTable(Distinct(vs), map w | w in vs :: Occ(vs, w))
  }

  /** The state of the duplicate-count object after counting the keys `s`. */
  ghost predicate KeyTally(counts: map<string, nat>, keys: seq<string>, s: seq<string>)
  {
    && keys == Distinct(s)
    && (forall w :: w in counts <==> w in s)
    && (forall w :: w in counts ==> counts[w] == Occ(s, w))
  }

  /** One row: its key is created at zero on first sight, then incremented. */
  lemma DuplicateStep(counts: map<string, nat>, keys: seq<string>, s: seq<string>, key: string)
    requires KeyTally(counts, keys, s)
    ensures var c := if key in counts then counts else counts[key := 0];
            var k := if key in counts then keys else keys + [key];
            KeyTally(c[key := c[key] + 1], k, s + [key])
  {
    DistinctSnoc(s, key);
    var c := if key in counts then counts else counts[key := 0];
    var c' := c[key := c[key] + 1];
    forall w
      ensures w in c' <==> w in s + [key]
      ensures w in c' ==> c'[w] == Occ(s + [key], w)
    {
      OccSnoc(s, key, w);
      OccPositive(s, key);
    }
  }

  /** `countDuplicates`: one pass over the rows, creating a key at zero on first sight
      and incrementing it. */
  method CountDuplicates(arr: seq<Row>, field: nat) returns (t: DuplicateTable)
    ensures t == DuplicatesOf(arr, field)
  {
    ghost var vs := FieldKeys(arr, field);
    var keys: seq<string> := [];
    var counts: map<string, nat> := map[];
    for i := 0 to |arr|
      invariant KeyTally(counts, keys, vs[..i])
    {
      var key := PropertyKey(At(arr[i], field));
      assert vs[..i + 1] == vs[..i] + [key];
      DuplicateStep(counts, keys, vs[..i], key);
      if key !in counts {
        counts := counts[key := 0];
        keys := keys + [key];
      }
      counts := counts[key := counts[key] + 1];
    }
    assert vs[..|arr|] == vs;
    t := DuplicateTable(keys, counts);
  }

  /** Sum of the counts over the keys of a duplicate table. */
  function TotalCount(keys: seq<string>, counts: map<string, nat>): int
    requires forall k :: k in keys ==> k in counts
    decreases |keys|
  {
    if |keys| == 0 then 0 else TotalCount(keys[..|keys| - 1], counts) + counts[keys[|keys| - 1]]
  }

  lemma {:induction false} TotalCountIsSumOcc(keys: seq<string>, vs: seq<string>, counts: map<string, nat>)
    requires forall k :: k in keys ==> k in counts && counts[k] == Occ(vs, k)
    ensures TotalCount(keys, counts) == SumOcc(keys, vs)
    decreases |keys|
  {
    if |keys| > 0 {
      TotalCountIsSumOcc(keys[..|keys| - 1], vs, counts);
    }
  }

  /** The duplicate counts add up to the number of rows. */
  lemma DuplicatesSumToRowCount(arr: seq<Row>, field: nat)
    ensures forall k :: k in DuplicatesOf(arr, field).keys ==> k in DuplicatesOf(arr, field).counts
    ensures TotalCount(DuplicatesOf(arr, field).keys, DuplicatesOf(arr, field).counts) == |arr|
  {
    var vs := FieldKeys(arr, field);
    DistinctMembers(vs);
    TotalCountIsSumOcc(Distinct(vs), vs, DuplicatesOf(arr, field).counts);
    SumOccDistinct(vs);
  }

  /** A row's count is at least one and counts exactly the rows with the same key. */
  lemma DuplicateCountOfRow(arr: seq<Row>, field: nat, i: nat)
    requires i < |arr|
    ensures PropertyKey(At(arr[i], field)) in DuplicatesOf(arr, field).counts
    ensures DuplicatesOf(arr, field).counts[PropertyKey(At(arr[i], field))]
            == Occ(FieldKeys(arr, field), PropertyKey(At(arr[i], field))) >= 1
  {
    var vs := FieldKeys(arr, field);
    assert vs[i] == PropertyKey(At(arr[i], field));
    OccPositive(vs, vs[i]);
  }

  // ---------------------------------------------------------------------------
  // convertToArr

  /** A canonical array index: a decimal numeral without leading zeros below 2^32 - 1.
      JavaScript lists such property keys first, in numeric order. */
  predicate IsArrayIndex(k: string)
  {
    && |k| > 0
    && (forall i :: 0 <= i < |k| ==> '0' <= k[i] <= '9')
    && (k[0] != '0' || |k| == 1)
    && DecimalValue(k) < 0xFFFF_FFFF
  }

  predicate NotArrayIndex(k: string)
  {
    !IsArrayIndex(k)
  }

  /** The value of a decimal numeral. */
  function DecimalValue(k: string): nat
    decreases |k|
  {
    if |k| == 0 then 0
    else DecimalValue(k[..|k| - 1]) * 10 + (if '0' <= k[|k| - 1] <= '9' then k[|k| - 1] as int - '0' as int else 0)
  }

  predicate IndexBefore(a: string, b: string)
  {
    DecimalValue(a) < DecimalValue(b)
  }

  /** `Object.keys` of an object whose keys were created in the order `keys`:
      array-index keys in ascending numeric order, then the others in creation order. */
  function ObjectKeys(keys: seq<string>): (r: seq<string>)
    ensures |r| == |keys|
    ensures multiset(r) == multiset(keys)
    ensures forall k :: k in r <==> k in keys
  {
    var r := SortBy(Filter(keys, IsArrayIndex), IndexBefore) + Filter(keys, NotArrayIndex);
    assert multiset(r) == multiset(keys) by {
      FilterPartition(keys, IsArrayIndex, NotArrayIndex);
    }
    assert forall k :: k in r <==> k in keys by {
      forall k
        ensures k in r <==> k in keys
      {
        assert k in r <==> k in multiset(r);
      }
    }
    r
  }

  lemma IndexBeforeIsStrictWeakOrder()
    ensures StrictWeakOrder(IndexBefore)
  {
  }

  /** Object.keys lists the array-index keys first, in numeric order, followed by the
      other keys in creation order; without array-index keys it is the creation order. */
  lemma ObjectKeysOrder(keys: seq<string>)
    ensures var n := |Filter(keys, IsArrayIndex)|;
            && (forall i :: 0 <= i < n ==> IsArrayIndex(ObjectKeys(keys)[i]))
            && SortedBy(ObjectKeys(keys)[..n], IndexBefore)
            && ObjectKeys(keys)[n..] == Filter(keys, NotArrayIndex)
    ensures (forall i :: 0 <= i < |keys| ==> NotArrayIndex(keys[i])) ==> ObjectKeys(keys) == keys
  {
    var idx := Filter(keys, IsArrayIndex);
    FilterMembers(keys, IsArrayIndex);
    var sorted := SortBy(idx, IndexBefore);
    IndexBeforeIsStrictWeakOrder();
    SortBySorted(idx, IndexBefore);
    assert ObjectKeys(keys)[..|idx|] == sorted;
    forall i | 0 <= i < |idx|
      ensures IsArrayIndex(ObjectKeys(keys)[i])
    {
      assert sorted[i] in multiset(idx);
    }
    if forall i :: 0 <= i < |keys| ==> NotArrayIndex(keys[i]) {
      FilterNone(keys, IsArrayIndex);
      FilterAll(keys, NotArrayIndex);
    }
  }

  /** A row of the word frequency list: `[word, frequency, power]`. */
  datatype WordEntry = WordEntry(word: string, frequency: nat, power: nat)

  /** `Object.keys(obj).map(key => [key, ...obj[key]])`. */
  function Entries(keys: seq<string>, counts: map<string, Counts>): (r: seq<WordEntry>)
    requires forall k :: k in keys ==> k in counts
    ensures |r| == |keys|
    ensures forall i :: 0 <= i < |keys| ==>
              r[i] == WordEntry(keys[i], counts[keys[i]].frequency, counts[keys[i]].power)
  {
    seq(|keys|, i requires 0 <= i < |keys| =>
      WordEntry(keys[i], counts[keys[i]].frequency, counts[keys[i]].power))
  }

  /** The comparator `(a, b) => b[1] - a[1]` is negative exactly when `a` is more frequent. */
  predicate MoreFrequent(a: WordEntry, b: WordEntry)
  {
    b.frequency - a.frequency < 0
  }

  lemma MoreFrequentIsStrictWeakOrder()
    ensures StrictWeakOrder(MoreFrequent)
  {
  }

  /** `convertToArr`: the table's entries in Object.keys order, stably sorted by
      descending frequency. */
  function ConvertToArr(t: FrequencyTable): (r: seq<WordEntry>)
    requires forall k :: k in t.keys ==> k in t.counts
    ensures multiset(r) == multiset(Entries(ObjectKeys(t.keys), t.counts))
  {
    SortBy(Entries(ObjectKeys(t.keys), t.counts), MoreFrequent)
  }

  /** The list has one entry per key and the frequencies never increase along it. */
  lemma ConvertToArrSorted(t: FrequencyTable)
    requires forall k :: k in t.keys ==> k in t.counts
    ensures |ConvertToArr(t)| == |t.keys|
    ensures forall i, j :: 0 <= i < j < |ConvertToArr(t)| ==>
              ConvertToArr(t)[i].frequency >= ConvertToArr(t)[j].frequency
  {
    var es := Entries(ObjectKeys(t.keys), t.counts);
    var r := ConvertToArr(t);
    assert SortedBy(r, MoreFrequent) by {
      MoreFrequentIsStrictWeakOrder();
      SortBySorted(es, MoreFrequent);
    }
    forall i, j | 0 <= i < j < |r|
      ensures r[i].frequency >= r[j].frequency
    {
      assert !MoreFrequent(r[j], r[i]);
    }
  }

  /** Each entry of the list is a key of the table carrying that key's counts. */
  lemma ConvertToArrEntries(t: FrequencyTable, e: WordEntry)
    requires forall k :: k in t.keys ==> k in t.counts
    requires e in ConvertToArr(t)
    ensures e.word in t.keys && e.frequency == t.counts[e.word].frequency && e.power == t.counts[e.word].power
  {
    var es := Entries(ObjectKeys(t.keys), t.counts);
    assert e in multiset(ConvertToArr(t));
    assert e in multiset(es);
    var i :| 0 <= i < |es| && es[i] == e;
    assert ObjectKeys(t.keys)[i] in ObjectKeys(t.keys);
  }

  /** The sort is stable: entries of equal frequency keep their Object.keys order. */
  lemma ConvertToArrStable(t: FrequencyTable, f: nat)
    requires forall k :: k in t.keys ==> k in t.counts
    ensures Filter(ConvertToArr(t), (e: WordEntry) => e.frequency == f)
         == Filter(Entries(ObjectKeys(t.keys), t.counts), (e: WordEntry) => e.frequency == f)
  {
    var k := WordEntry("", f, 0);
    var p := (e: WordEntry) => e.frequency == f;
    assert forall y :: p(y) == Tied(MoreFrequent, y, k);
    assert StrictWeakOrder(MoreFrequent) by {
      MoreFrequentIsStrictWeakOrder();
    }
    SortByStable(Entries(ObjectKeys(t.keys), t.counts), MoreFrequent, k, p);
  }

  // ---------------------------------------------------------------------------
  // filterFrequecyArr

  /** The word contains a letter (`/\p{L}/u.test`), for a letter class `isLetter`. */
  predicate HasLetter(w: string, isLetter: char -> bool)
  {
    exists i :: 0 <= i < |w| && isLetter(w[i])
  }

  /** `filterFrequecyArr`: drops the entries whose word is on the filter list or has no letter. */
  function FilterFrequencyArr(arr: seq<WordEntry>, filterList: seq<string>, isLetter: char -> bool): (r: seq<WordEntry>)
    ensures forall e :: e in r <==> e in arr && e.word !in filterList && HasLetter(e.word, isLetter)
  {
    var keep := (e: WordEntry) => e.word !in filterList && HasLetter(e.word, isLetter);
    var r := Filter(arr, keep);
    FilterMembers(arr, keep);
    assert forall e :: e in arr && e.word !in filterList && HasLetter(e.word, isLetter) ==> e in r by {
      forall e | e in arr && e.word !in filterList && HasLetter(e.word, isLetter)
        ensures e in r
      {
        var i :| 0 <= i < |arr| && arr[i] == e;
      }
    }
    r
  }

  /** The filter keeps the order of the frequency list, so it stays sorted by frequency. */
  lemma FilterFrequencyArrKeepsOrder(arr: seq<WordEntry>, filterList: seq<string>, isLetter: char -> bool)
    requires SortedBy(arr, MoreFrequent)
    ensures IsSubsequence(FilterFrequencyArr(arr, filterList, isLetter), arr)
    ensures SortedBy(FilterFrequencyArr(arr, filterList, isLetter), MoreFrequent)
  {
    var p := (e: WordEntry) => e.word !in filterList && HasLetter(e.word, isLetter);
    FilterIsSubsequence(arr, p);
    FilterSorted(arr, p, MoreFrequent);
  }

  // ---------------------------------------------------------------------------
  // compareDuplicatesBySpecialSources

  /** A row of the comparison: `[part, countNotInSpecial, countInSpecial]`. */
  datatype PartCount = PartCount(part: string, notSpecial: nat, special: nat)

  predicate TextContains(row: Row, part: string)
  {
    |row| > Text && Contains(row[Text], part)
  }

  predicate SpecialRow(row: Row, ss: SpecialSources)
  {
    |row| > ChatName && IsInSpecialSources(row, ss)
  }

  /** The rows whose text contains `part` (`el[text].includes(part)`, case-sensitive). */
  function FoundMessages(arr: seq<Row>, part: string): seq<Row>
  {
    Filter(arr, row => TextContains(row, part))
  }

  /** The `reduce` over the found rows: `[not special, special]`. */
  function SplitBySpecialness(rows: seq<Row>, ss: SpecialSources): (r: (nat, nat))
    ensures r.0 + r.1 == |rows|
    decreases |rows|
  {
    if |rows| == 0 then (0, 0)
    else
      var acc := SplitBySpecialness(rows[..|rows| - 1], ss);
      if !SpecialRow(rows[|rows| - 1], ss) then (acc.0 + 1, acc.1) else (acc.0, acc.1 + 1)
  }

  /** The two counts are the numbers of non-special and special rows. */
  lemma {:induction false} SplitBySpecialnessCounts(rows: seq<Row>, ss: SpecialSources)
    ensures SplitBySpecialness(rows, ss).1 == |Filter(rows, row => SpecialRow(row, ss))|
    ensures SplitBySpecialness(rows, ss).0 == |Filter(rows, row => !SpecialRow(row, ss))|
    decreases |rows|
  {
    if |rows| > 0 {
      var init, x := rows[..|rows| - 1], rows[|rows| - 1];
      SplitBySpecialnessCounts(init, ss);
      assert rows == init + [x];
      FilterConcat(init, [x], row => SpecialRow(row, ss));
      FilterConcat(init, [x], row => !SpecialRow(row, ss));
    }
  }

  function PartCountOf(arr: seq<Row>, ss: SpecialSources, part: string): PartCount
  {
    var acc := SplitBySpecialness(FoundMessages(arr, part), ss);
    PartCount(part, acc.0, acc.1)
  }

  /** `compareDuplicatesBySpecialSources`: one counted row per comparison part, in order. */
  method CompareDuplicatesBySpecialSources(arr: seq<Row>, ss: SpecialSources, comparisonParts: seq<string>)
    returns (result: seq<PartCount>)
    requires |comparisonParts| > 0 ==> AllWellFormed(arr)
    ensures |result| == |comparisonParts|
    ensures forall k :: 0 <= k < |result| ==> result[k] == PartCountOf(arr, ss, comparisonParts[k])
  {
    result := [];
    for k := 0 to |comparisonParts|
      invariant |result| == k
      invariant forall m :: 0 <= m < k ==> result[m] == PartCountOf(arr, ss, comparisonParts[m])
    {
      var part := comparisonParts[k];
      var foundMessages := FoundMessages(arr, part);
      var acc := SplitBySpecialness(foundMessages, ss);
      result := result + [PartCount(part, acc.0, acc.1)];
    }
  }

  /** Each part's two counts split the rows containing it into non-special and special ones. */
  lemma PartCountTotals(arr: seq<Row>, ss: SpecialSources, part: string)
    ensures PartCountOf(arr, ss, part).notSpecial + PartCountOf(arr, ss, part).special
            == |FoundMessages(arr, part)|
    ensures PartCountOf(arr, ss, part).special
            == |Filter(FoundMessages(arr, part), row => SpecialRow(row, ss))|
  {
    SplitBySpecialnessCounts(FoundMessages(arr, part), ss);
  }

  // ---------------------------------------------------------------------------
  // getMedian

  /** A JavaScript number as far as the median goes: `NaN`, or a value. */
  datatype Number = NaN | Num(value: real)

  /** The comparator `(a, b) => a - b` is negative exactly when `a < b`. */
  predicate Ascending(a: int, b: int)
  {
    a - b < 0
  }

  /** The median of a list sorted in ascending order: the middle element for odd length,
      the mean of the two middle elements for even length, NaN for the empty list. */
  function MedianOfSorted(s: seq<int>): (r: Number)
    ensures r.NaN? <==> |s| == 0
    ensures |s| > 0 && (forall i, j :: 0 <= i < j < |s| ==> s[i] <= s[j]) ==>
              (s[0] as real) <= r.value <= (s[|s| - 1] as real)
  {
    var half := |s| / 2;
    if |s| % 2 == 1 then Num(s[half] as real)
    else if |s| == 0 then NaN
    else Num((s[half - 1] + s[half]) as real / 2.0)
  }

  /** `getMedian`: sorts `arr` in place ascending, then reads off the median. */
  method GetMedian(arr: array<int>) returns (m: Number)
    modifies arr
    ensures arr[..] == SortBy(old(arr[..]), Ascending)
    ensures multiset(arr[..]) == multiset(old(arr[..]))
    ensures forall i, j :: 0 <= i < j < arr.Length ==> arr[i] <= arr[j]
    ensures m == MedianOfSorted(arr[..])
  {
    var sorted := SortBy(arr[..], Ascending);
    SortedAscending(arr[..]);
    forall k | 0 <= k < arr.Length {
      arr[k] := sorted[k];
    }
    assert arr[..] == sorted;
    var half := arr.Length / 2;
    if arr.Length % 2 == 1 {
      m := Num(sorted[half] as real);
    } else if arr.Length == 0 {
      m := NaN;
    } else {
      m := Num((sorted[half - 1] + sorted[half]) as real / 2.0);
    }
  }

  /** Sorting with the comparator `(a, b) => a - b` orders the values ascending. */
  lemma SortedAscending(s: seq<int>)
    ensures var r := SortBy(s, Ascending);
      forall i, j :: 0 <= i < j < |r| ==> r[i] <= r[j]
  {
    var r := SortBy(s, Ascending);
    SortBySorted(s, Ascending);
    forall i, j | 0 <= i < j < |r|
      ensures r[i] <= r[j]
    {
      assert !Ascending(r[j], r[i]);
    }
  }

  /** The first element of an ascending list is its least element. */
  lemma SortedHeadIsLeast(s: seq<int>, x: int)
    requires SortedBy(s, Ascending) && x in s
    ensures s[0] <= x
  {
    var i :| 0 <= i < |s| && s[i] == x;
    assert i == 0 || !Ascending(s[i], s[0]);
  }

  /** Two ascending lists with the same elements are equal. */
  lemma {:induction false} SortedUnique(s: seq<int>, t: seq<int>)
    requires SortedBy(s, Ascending) && SortedBy(t, Ascending)
    requires multiset(s) == multiset(t)
    ensures s == t
    decreases |s|
  {
    assert |s| == |multiset(s)| == |multiset(t)| == |t|;
    if |s| > 0 {
      assert s[0] in multiset(t) && t[0] in multiset(s);
      SortedHeadIsLeast(t, s[0]);
      SortedHeadIsLeast(s, t[0]);
      assert s == [s[0]] + s[1..] && t == [t[0]] + t[1..];
      assert s[0] == t[0];
      assert multiset(s[1..]) == multiset(t[1..]) by {
        assert multiset(s) == multiset{s[0]} + multiset(s[1..]);
        assert multiset(t) == multiset{s[0]} + multiset(t[1..]);
        assert multiset(s[1..]) == multiset(s) - multiset{s[0]};
        assert multiset(t[1..]) == multiset(t) - multiset{s[0]};
      }
      assert SortedBy(s[1..], Ascending) && SortedBy(t[1..], Ascending);
      SortedUnique(s[1..], t[1..]);
    }
  }

  /** The median depends only on the values, not on the order they come in
      (`Object.values` lists them in key order). */
  lemma MedianOrderIndependent(s: seq<int>, t: seq<int>)
    requires multiset(s) == multiset(t)
    ensures MedianOfSorted(SortBy(s, Ascending)) == MedianOfSorted(SortBy(t, Ascending))
  {
    SortBySorted(s, Ascending);
    SortBySorted(t, Ascending);
    SortedUnique(SortBy(s, Ascending), SortBy(t, Ascending));
  }

  /** For odd length the median is an element with at least half of the others on
      either side of it. */
  lemma MedianIsMiddle(s: seq<int>)
    requires |s| % 2 == 1
    ensures var sorted := SortBy(s, Ascending);
            && MedianOfSorted(sorted) == Num(sorted[|s| / 2] as real)
            && sorted[|s| / 2] in s
            && (forall i :: 0 <= i <= |s| / 2 ==> sorted[i] <= sorted[|s| / 2])
            && (forall i :: |s| / 2 <= i < |s| ==> sorted[|s| / 2] <= sorted[i])
  {
    var sorted := SortBy(s, Ascending);
    SortedAscending(s);
    assert var r := SortBy(s, Ascending);
      forall i, j :: 0 <= i < j < |r| ==> r[i] <= r[j];
    MiddleOfAscending(s, sorted);
  }

  /** The same for any ascending arrangement `t` of the values `s`. */
  lemma MiddleOfAscending(s: seq<int>, t: seq<int>)
    requires |s| % 2 == 1 && multiset(t) == multiset(s)
    requires forall i, j :: 0 <= i < j < |t| ==> t[i] <= t[j]
    ensures |t| == |s|
    ensures MedianOfSorted(t) == Num(t[|s| / 2] as real)
    ensures t[|s| / 2] in s
    ensures forall i :: 0 <= i <= |s| / 2 ==> t[i] <= t[|s| / 2]
    ensures forall i :: |s| / 2 <= i < |s| ==> t[|s| / 2] <= t[i]
  {
    assert |t| == |multiset(t)| == |multiset(s)| == |s|;
    assert t[|s| / 2] in multiset(t);
  }
}
