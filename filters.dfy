/** Row filters: spam exclusion, first message per text, the most duplicated message
    per author, and selection by message type or field. */
module Filters {
  import opened Strings
  import opened Seqs
  import opened Schema
  import opened Classifier

  // ---------------------------------------------------------------------------
  // excludeSpam

  /** The six spam lists: exact chat names, messages and phone numbers (compared as
      they are), and parts of each (searched for in the lower-cased field). */
  datatype SpamConfig = SpamConfig(
    chats: seq<string>, chatsParts: seq<string>,
    messages: seq<string>, messagesParts: seq<string>,
    phoneNumbers: seq<string>, phoneNumbersParts: seq<string>)

  /** `list.includes(el[column])`: false when the record has no such field. */
  predicate ExactIn(row: Row, column: nat, list: seq<string>)
  {
    column < |row| && row[column] in list
  }

  /** A part check with `parts` can read its field: `some` over an empty list never does. */
  predicate Readable(row: Row, column: nat, parts: seq<string>)
  {
    column < |row| || |parts| == 0
  }

  /** The callback of `excludeSpam` returns without a TypeError: every part check it
      reaches before an earlier check fires finds its field. */
  predicate SpamCheckSafe(row: Row, spam: SpamConfig)
  {
    || ExactIn(row, ChatName, spam.chats)
    || (Readable(row, ChatName, spam.chatsParts)
        && (|| HasValueFromArray(row, ChatName, spam.chatsParts)
            || ExactIn(row, Text, spam.messages)
            || (Readable(row, Text, spam.messagesParts)
                && (|| HasValueFromArray(row, Text, spam.messagesParts)
                    || ExactIn(row, PhoneNumber, spam.phoneNumbers)
                    || Readable(row, PhoneNumber, spam.phoneNumbersParts)))))
  }

  predicate AllSpamCheckSafe(arr: seq<Row>, spam: SpamConfig)
  {
    forall k :: 0 <= k < |arr| ==> SpamCheckSafe(arr[k], spam)
  }

  /** A record that reaches the text field never makes the checks throw. */
  lemma WellFormedIsSpamCheckSafe(arr: seq<Row>, spam: SpamConfig)
    requires AllWellFormed(arr)
    ensures AllSpamCheckSafe(arr, spam)
  {
    forall k | 0 <= k < |arr|
      ensures SpamCheckSafe(arr[k], spam)
    {
      assert WellFormed(arr[k]);
    }
  }

  /** The checks of `excludeSpam`, in the order the source makes them. */
  predicate IsSpam(row: Row, spam: SpamConfig)
    requires SpamCheckSafe(row, spam)
  {
    || ExactIn(row, ChatName, spam.chats)
    || HasValueFromArray(row, ChatName, spam.chatsParts)
    || ExactIn(row, Text, spam.messages)
    || HasValueFromArray(row, Text, spam.messagesParts)
    || ExactIn(row, PhoneNumber, spam.phoneNumbers)
    || HasValueFromArray(row, PhoneNumber, spam.phoneNumbersParts)
  }

  predicate Kept(row: Row, spam: SpamConfig)
  {
    SpamCheckSafe(row, spam) && !IsSpam(row, spam)
  }

  /** `excludeSpam`: the rows that pass every check, in their original order. */
  function ExcludeSpam(arr: seq<Row>, spam: SpamConfig): (r: seq<Row>)
    requires AllSpamCheckSafe(arr, spam)
    ensures forall row :: row in r <==> row in arr && !IsSpam(row, spam)
  {
    var keep := row => Kept(row, spam);
    var r := Filter(arr, keep);
    FilterMembers(arr, keep);
    assert forall row :: row in arr && !IsSpam(row, spam) ==> row in r by {
      forall row | row in arr && !IsSpam(row, spam)
        ensures row in r
      {
        var i :| 0 <= i < |arr| && arr[i] == row;
      }
    }
    r
  }

  /** The result is a subsequence of the input, its rows pass the checks without
      throwing, and excluding spam twice changes nothing. */
  lemma ExcludeSpamProperties(arr: seq<Row>, spam: SpamConfig)
    requires AllSpamCheckSafe(arr, spam)
    ensures IsSubsequence(ExcludeSpam(arr, spam), arr)
    ensures AllSpamCheckSafe(ExcludeSpam(arr, spam), spam)
    ensures AllWellFormed(arr) ==> AllWellFormed(ExcludeSpam(arr, spam))
    ensures ExcludeSpam(ExcludeSpam(arr, spam), spam) == ExcludeSpam(arr, spam)
  {
    var keep := row => Kept(row, spam);
    var r := ExcludeSpam(arr, spam);
    FilterIsSubsequence(arr, keep);
    FilterMembers(arr, keep);
    FilterAll(r, keep);
  }

  /** A short record whose chat is listed is dropped before any other field is read. */
  lemma ExcludeSpamListedShortRow()
    ensures ExcludeSpam([["spamchat"]], SpamConfig(["spamchat"], [], [], [], [], [])) == []
  {
    var spam := SpamConfig(["spamchat"], [], [], [], [], []);
    var row: Row := ["spamchat"];
    assert ExactIn(row, ChatName, spam.chats);
    FilterCons([row], r => Kept(r, spam));
  }

  /** A short record is kept when it is not listed and every part list is empty. */
  lemma ExcludeSpamShortRowKept()
    ensures var row := ["chat", "01/02/2021 10:00", "chat", "+000"];
            ExcludeSpam([row], SpamConfig(["spamchat"], [], [], [], [], [])) == [row]
  {
    var spam := SpamConfig(["spamchat"], [], [], [], [], []);
    var row: Row := ["chat", "01/02/2021 10:00", "chat", "+000"];
    assert row[ChatName] != "spamchat";
    assert !ExactIn(row, ChatName, spam.chats);
    assert Kept(row, spam);
    FilterCons([row], r => Kept(r, spam));
  }

  /** The part checks do not depend on letter case: two rows whose field agrees after
      lower-casing get the same verdict. */
  lemma PartChecksIgnoreCase(a: Row, b: Row, column: nat, parts: seq<string>)
    requires column < |a| && column < |b|
    requires ToLower(a[column]) == ToLower(b[column])
    ensures HasValueFromArray(a, column, parts) == HasValueFromArray(b, column, parts)
  {
  }

  /** The exact checks do depend on letter case: a chat listed as "Spam" does not
      exclude a row of the chat "spam". */
  lemma ExactChecksAreCaseSensitive()
    ensures var spam := SpamConfig(["Spam"], [], [], [], [], []);
            var row := ["spam", "01/02/2021 10:00", "chat", "+000", "user", "hello"];
            WellFormed(row) && !IsSpam(row, spam) && ExcludeSpam([row], spam) == [row]
  {
    var spam := SpamConfig(["Spam"], [], [], [], [], []);
    var row := ["spam", "01/02/2021 10:00", "chat", "+000", "user", "hello"];
    assert row[ChatName] != "Spam";
    assert ExcludeSpam([row], spam) == [row] by {
      FilterAll([row], r => Kept(r, spam));
    }
  }

  // ---------------------------------------------------------------------------
  // filterUniqueMessages

  /** `row[text]`, the key rows are compared by with `===`. */
  function TextKey(row: Row): Value
  {
    At(row, Text)
  }

  function PhoneKey(row: Row): Value
  {
    At(row, PhoneNumber)
  }

  /** `Array.prototype.findIndex` with the test `key(el) === k`. */
  method FindIndex<T>(s: seq<T>, key: T -> Value, k: Value) returns (i: int)
    ensures i == -1 <==> !HasKey(s, key, k)
    ensures i != -1 ==> HasKey(s, key, k) && i == FirstIndex(s, key, k)
  {
    i := 0;
    while i < |s|
      invariant 0 <= i <= |s|
      invariant forall j :: 0 <= j < i ==> key(s[j]) != k
    {
      if key(s[i]) == k {
        FirstIndexUnique(s, key, k, i);
        return;
      }
      i := i + 1;
    }
    i := -1;
  }

  /** `filterUniqueMessages`: a row is kept when no kept row has its text. */
  method FilterUniqueMessages(arr: seq<Row>) returns (uniqueMessages: seq<Row>)
    ensures uniqueMessages == DedupBy(arr, TextKey)
  {
    uniqueMessages := [];
    for i := 0 to |arr|
      invariant uniqueMessages == DedupBy(arr[..i], TextKey)
    {
      var row := arr[i];
      assert arr[..i + 1][..i] == arr[..i];
      DedupByProperties(arr[..i], TextKey);
      var idx := FindIndex(uniqueMessages, TextKey, TextKey(row));
      if idx == -1 {
        uniqueMessages := uniqueMessages + [row];
      }
    }
    assert arr[..|arr|] == arr;
  }

  /** What filterUniqueMessages keeps: the first row of every text, in input order, with
      pairwise-distinct texts; applying it again changes nothing. */
  lemma UniqueMessagesProperties(arr: seq<Row>)
    ensures DistinctKeys(DedupBy(arr, TextKey), TextKey)
    ensures forall k :: HasKey(DedupBy(arr, TextKey), TextKey, k) <==> HasKey(arr, TextKey, k)
    ensures forall m :: 0 <= m < |DedupBy(arr, TextKey)| ==>
              HasKey(arr, TextKey, TextKey(DedupBy(arr, TextKey)[m])) &&
              DedupBy(arr, TextKey)[m] == arr[FirstIndex(arr, TextKey, TextKey(DedupBy(arr, TextKey)[m]))]
    ensures IsSubsequence(DedupBy(arr, TextKey), arr)
    ensures DedupBy(DedupBy(arr, TextKey), TextKey) == DedupBy(arr, TextKey)
  {
    DedupByProperties(arr, TextKey);
    DedupByIdempotent(arr, TextKey);
  }

  // ---------------------------------------------------------------------------
  // filterMostPopMessFromXUniqueAuthors

  /** A row with the duplicate count appended to it. */
  datatype CountedRow = CountedRow(row: Row, duplicateCount: int)

  function CountedText(c: CountedRow): string
  {
    if |c.row| > Text then c.row[Text] else ""
  }

  function CountedTextKey(c: CountedRow): Value
  {
    TextKey(c.row)
  }

  function CountedPhoneKey(c: CountedRow): Value
  {
    PhoneKey(c.row)
  }

  /** The comparator `b.duplicateCount - a.duplicateCount || a.text.localeCompare(b.text)`
      is negative: more duplicates first, then texts in the collation `textBefore`. */
  predicate PopularBefore(textBefore: (string, string) -> bool, a: CountedRow, b: CountedRow)
  {
    b.duplicateCount - a.duplicateCount < 0
    || (b.duplicateCount - a.duplicateCount == 0 && textBefore(CountedText(a), CountedText(b)))
  }

  function PopularFirst(textBefore: (string, string) -> bool): (CountedRow, CountedRow) -> bool
  {
    (a, b) => PopularBefore(textBefore, a, b)
  }

  /** A consistent text collation makes the combined comparator consistent. */
  lemma PopularFirstIsStrictWeakOrder(textBefore: (string, string) -> bool)
    requires StrictWeakOrder(textBefore)
    ensures StrictWeakOrder(PopularFirst(textBefore))
  {
    var before := PopularFirst(textBefore);
    forall a, b, c | before(a, b) && before(b, c)
      ensures before(a, c)
    {
      assert textBefore(CountedText(a), CountedText(b)) && textBefore(CountedText(b), CountedText(c))
        ==> textBefore(CountedText(a), CountedText(c));
    }
    forall a, b, c | before(a, c)
      ensures before(a, b) || before(b, c)
    {
      assert textBefore(CountedText(a), CountedText(c))
        ==> textBefore(CountedText(a), CountedText(b)) || textBefore(CountedText(b), CountedText(c));
    }
  }

  /** One row of the selection loop: skipped when its author already has a row, appended
      unless its text repeats the last kept row's. */
  function SelectStep(kept: seq<CountedRow>, c: CountedRow): seq<CountedRow>
  {
    if HasKey(kept, CountedPhoneKey, CountedPhoneKey(c)) then kept
    else if |kept| == 0 || CountedTextKey(c) != CountedTextKey(kept[|kept| - 1]) then kept + [c]
    else kept
  }

  /** The loop stops once it has appended the x-th row; x < 1 never stops it. */
  predicate Full(kept: seq<CountedRow>, x: int)
  {
    x >= 1 && |kept| == x
  }

  /** The rows the selection loop keeps from the sorted rows `s`. */
  function MostPopular(s: seq<CountedRow>, x: int): seq<CountedRow>
    decreases |s|
  {
    if |s| == 0 then []
    else
      var kept := MostPopular(s[..|s| - 1], x);
      if Full(kept, x) then kept else SelectStep(kept, s[|s| - 1])
  }

  lemma {:induction false} MostPopularFull(s: seq<CountedRow>, n: nat, x: int)
    requires n <= |s| && Full(MostPopular(s[..n], x), x)
    ensures MostPopular(s, x) == MostPopular(s[..n], x)
    decreases |s| - n
  {
    if n < |s| {
      assert s[..n + 1][..n] == s[..n];
      MostPopularFull(s, n + 1, x);
    } else {
      assert s[..n] == s;
    }
  }

  /** `filterMostPopMessFromXUniqueAuthors`: sorts `arr` in place (most duplicated first),
      then keeps one row per author, skipping a text equal to the last kept one, until
      `x` rows are kept. */
  method FilterMostPopMessFromXUniqueAuthors(arr: array<CountedRow>, x: int, textBefore: (string, string) -> bool)
    returns (uniqueMessages: seq<CountedRow>)
    requires forall k :: 0 <= k < arr.Length ==> WellFormed(arr[k].row)
    modifies arr
    ensures arr[..] == SortBy(old(arr[..]), PopularFirst(textBefore))
    ensures uniqueMessages == MostPopular(arr[..], x)
  {
    var sorted := SortBy(arr[..], PopularFirst(textBefore));
    forall k | 0 <= k < arr.Length {
      arr[k] := sorted[k];
    }
    assert arr[..] == sorted;
    uniqueMessages := [];
    var i := 0;
    while i < arr.Length
      invariant 0 <= i <= arr.Length
      invariant arr[..] == sorted
      invariant uniqueMessages == MostPopular(arr[..i], x) && !Full(uniqueMessages, x)
    {
      var row := arr[i];
      assert arr[..i + 1][..i] == arr[..i];
      var idx := FindIndex(uniqueMessages, CountedPhoneKey, CountedPhoneKey(row));
      if idx != -1 {
        i := i + 1;
        continue;
      }
      if |uniqueMessages| == 0 || CountedTextKey(row) != CountedTextKey(uniqueMessages[|uniqueMessages| - 1]) {
        uniqueMessages := uniqueMessages + [row];
      }
      if |uniqueMessages| == x {
        MostPopularFull(arr[..], i + 1, x);
        return;
      }
      i := i + 1;
    }
    assert arr[..arr.Length] == arr[..];
  }

  lemma MostPopularSnoc(s: seq<CountedRow>, x: int)
    requires |s| > 0
    ensures var kept := MostPopular(s[..|s| - 1], x);
            MostPopular(s, x) == if Full(kept, x) then kept else SelectStep(kept, s[|s| - 1])
  {
  }

  /** The kept rows are a subsequence of the sorted rows. */
  lemma {:induction false} MostPopularSubsequence(s: seq<CountedRow>, x: int)
    ensures IsSubsequence(MostPopular(s, x), s)
    decreases |s|
  {
    if |s| > 0 {
      var init, c := s[..|s| - 1], s[|s| - 1];
      MostPopularSubsequence(init, x);
      assert s == init + [c];
      SubsequenceSnoc(MostPopular(init, x), init, c);
    }
  }

  /** No two kept rows have the same author. */
  lemma {:induction false} MostPopularDistinctAuthors(s: seq<CountedRow>, x: int)
    ensures DistinctKeys(MostPopular(s, x), CountedPhoneKey)
    decreases |s|
  {
    if |s| > 0 {
      var init, c := s[..|s| - 1], s[|s| - 1];
      var kept := MostPopular(init, x);
      MostPopularDistinctAuthors(init, x);
      if !Full(kept, x) && !HasKey(kept, CountedPhoneKey, CountedPhoneKey(c)) {
        var r := kept + [c];
        forall i, j | 0 <= i < j < |r|
          ensures CountedPhoneKey(r[i]) != CountedPhoneKey(r[j])
        {
          if j == |r| - 1 {
            assert CountedPhoneKey(kept[i]) != CountedPhoneKey(c);
          } else {
            assert r[i] == kept[i] && r[j] == kept[j];
          }
        }
      }
    }
  }

  /** Two consecutive kept rows never have the same text. */
  lemma {:induction false} MostPopularNoRepeatedText(s: seq<CountedRow>, x: int)
    ensures forall m :: 0 < m < |MostPopular(s, x)| ==>
              CountedTextKey(MostPopular(s, x)[m - 1]) != CountedTextKey(MostPopular(s, x)[m])
    decreases |s|
  {
    if |s| > 0 {
      var init, c := s[..|s| - 1], s[|s| - 1];
      var kept := MostPopular(init, x);
      MostPopularNoRepeatedText(init, x);
      if !Full(kept, x) && !HasKey(kept, CountedPhoneKey, CountedPhoneKey(c))
         && (|kept| == 0 || CountedTextKey(c) != CountedTextKey(kept[|kept| - 1])) {
        var r := kept + [c];
        forall m | 0 < m < |r|
          ensures CountedTextKey(r[m - 1]) != CountedTextKey(r[m])
        {
          if m < |kept| {
            assert r[m - 1] == kept[m - 1] && r[m] == kept[m];
          }
        }
      }
    }
  }

  /** With x >= 1 at most x rows are kept. */
  lemma {:induction false} MostPopularBound(s: seq<CountedRow>, x: int)
    requires x >= 1
    ensures |MostPopular(s, x)| <= x
    decreases |s|
  {
    if |s| > 0 {
      MostPopularBound(s[..|s| - 1], x);
    }
  }

  /** The sort puts the most duplicated rows first and, among equally duplicated rows,
      the texts in collation order; rows of equal count and text keep their order. */
  lemma SortedByPopularity(s: seq<CountedRow>, textBefore: (string, string) -> bool)
    requires StrictWeakOrder(textBefore)
    ensures var r := SortBy(s, PopularFirst(textBefore));
            forall i, j :: 0 <= i < j < |r| ==>
              r[i].duplicateCount >= r[j].duplicateCount
              && (r[i].duplicateCount == r[j].duplicateCount ==> !textBefore(CountedText(r[j]), CountedText(r[i])))
  {
    var before := PopularFirst(textBefore);
    var r := SortBy(s, before);
    assert SortedBy(r, before) by {
      PopularFirstIsStrictWeakOrder(textBefore);
      SortBySorted(s, before);
    }
    forall i, j | 0 <= i < j < |r|
      ensures r[i].duplicateCount >= r[j].duplicateCount
      ensures r[i].duplicateCount == r[j].duplicateCount ==> !textBefore(CountedText(r[j]), CountedText(r[i]))
    {
      assert !before(r[j], r[i]);
    }
  }

  // ---------------------------------------------------------------------------
  // filterByMessageType and extractField

  predicate OfType(row: Row, t: string)
  {
    At(row, Type) == Str(t)
  }

  /** `filterByMessageType`: the rows whose type field is `type`, in order. */
  function FilterByMessageType(arr: seq<Row>, t: string): (r: seq<Row>)
    ensures forall row :: row in r <==> row in arr && OfType(row, t)
  {
    var ofType := row => OfType(row, t);
    var r := Filter(arr, ofType);
    FilterMembers(arr, ofType);
    assert forall row :: row in arr && OfType(row, t) ==> row in r by {
      forall row | row in arr && OfType(row, t)
        ensures row in r
      {
        var i :| 0 <= i < |arr| && arr[i] == row;
      }
    }
    r
  }

  /** Filtering by type keeps the order, and filtering again by the same type changes nothing. */
  lemma FilterByMessageTypeProperties(arr: seq<Row>, t: string)
    ensures IsSubsequence(FilterByMessageType(arr, t), arr)
    ensures FilterByMessageType(FilterByMessageType(arr, t), t) == FilterByMessageType(arr, t)
  {
    FilterIsSubsequence(arr, row => OfType(row, t));
    FilterAll(FilterByMessageType(arr, t), row => OfType(row, t));
  }

  /** `extractField`: the named column of every row, `undefined` where a row is too short. */
  function ExtractField(arr: seq<Row>, column: Field, cols: Columns): (r: seq<Value>)
    requires cols.Has(column)
    ensures |r| == |arr|
    ensures forall k :: 0 <= k < |arr| ==>
              (r[k].Str? <==> cols.Position(column) < |arr[k]|) && (r[k].Str? ==> r[k].s == arr[k][cols.Position(column)])
  {
    seq(|arr|, k requires 0 <= k < |arr| => At(arr[k], cols.Position(column)))
  }

}
