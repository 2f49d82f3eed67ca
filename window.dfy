/** Extraction of matched messages with their context: the rows of the same chat
    above and below every match, merged across matches that lie close together. */
module Window {
  import opened Seqs
  import opened Schema
  import opened Classifier

  const NumOfAdjRows: nat := 5
  const NumOfAdjRowsBetweenMatches: nat := 7
  const KeywordEmphasis: string := "Keyword found"

  /** The search in force: the compiled query and the special sources. */
  datatype Search = Search(query: string -> bool, special: SpecialSources)

  datatype Direction = Up | Down

  /** A match from a source that is not special: it opens or extends a context block. */
  predicate Tagged(row: Row, search: Search)
    requires WellFormed(row)
  {
    IsMatchByQuery(row, search.query) && !IsInSpecialSources(row, search.special)
  }

  function InChat(chat: string): Row -> bool
  {
    r => |r| > ChatName && r[ChatName] == chat
  }

  function TaggedIn(search: Search): Row -> bool
  {
    r => WellFormed(r) && Tagged(r, search)
  }

  function Min(a: nat, b: nat): nat
  {
    if a <= b then a else b
  }

  // ---------------------------------------------------------------------------
  // Adjacent rows of one chat

  /** The last `x` rows above `i` that belong to the chat of row `i`, in log order. */
  function UpRows(arr: seq<Row>, i: nat, x: nat): seq<Row>
    requires i < |arr| && |arr[i]| > ChatName
  {
    var s := Filter(arr[..i], InChat(arr[i][ChatName]));
    s[|s| - Min(x, |s|)..]
  }

  /** The first `x` rows below `i` that belong to the chat of row `i`. */
  function DownRows(arr: seq<Row>, i: nat, x: nat): seq<Row>
    requires i < |arr| && |arr[i]| > ChatName
  {
    var s := Filter(arr[i + 1..], InChat(arr[i][ChatName]));
    s[..Min(x, |s|)]
  }

  /** `getXAdjRows`: walks away from row `i` in the given direction, collecting rows
      of the same chat until `x` are found or the log ends. */
  method GetXAdjRows(arr: seq<Row>, i: nat, x: nat, direct: Direction) returns (found: seq<Row>)
    requires i < |arr| && AllWellFormed(arr)
    ensures found == if direct == Up then UpRows(arr, i, x) else DownRows(arr, i, x)
  {
    var foundCount := 0;
    var count: int := if direct == Up then i - 1 else i + 1;
    var chatName := arr[i][ChatName];
    var foundArr: seq<Row> := [];
    var p := InChat(chatName);
    while foundCount < x
      invariant foundCount == |foundArr| <= x
      invariant direct == Up ==> -1 <= count < i && Reverse(foundArr) == Filter(arr[count + 1..i], p)
      invariant direct == Down ==> i < count <= |arr| && foundArr == Filter(arr[i + 1..count], p)
      decreases if direct == Up then count + 1 else |arr| - count
    {
      if count < 0 || count >= |arr| {
        break;
      }
      var sameChat := arr[count][ChatName] == chatName;
      ghost var before := foundArr;
      if sameChat {
        foundArr := foundArr + [arr[count]];
        foundCount := foundCount + 1;
      }
      if direct == Up {
        UpStep(arr, count, i, p, before);
        count := count - 1;
      } else {
        DownStep(arr, i, count, p, before);
        count := count + 1;
      }
    }
    if direct == Up {
      UpDone(arr, i, x, count, foundArr);
      found := Reverse(foundArr);
    } else {
      DownDone(arr, i, x, count, foundArr);
      found := foundArr;
    }
  }

  lemma UpStep(arr: seq<Row>, count: nat, i: nat, p: Row -> bool, found: seq<Row>)
    requires count < i <= |arr|
    requires Reverse(found) == Filter(arr[count + 1..i], p)
    ensures Reverse(found + if p(arr[count]) then [arr[count]] else []) == Filter(arr[count..i], p)
  {
    assert arr[count..i] == [arr[count]] + arr[count + 1..i];
    FilterConcat([arr[count]], arr[count + 1..i], p);
    if p(arr[count]) {
      ReverseSnoc(found, arr[count]);
    } else {
      assert found + [] == found;
    }
  }

  lemma DownStep(arr: seq<Row>, i: nat, count: nat, p: Row -> bool, found: seq<Row>)
    requires i < count < |arr|
    requires found == Filter(arr[i + 1..count], p)
    ensures found + (if p(arr[count]) then [arr[count]] else []) == Filter(arr[i + 1..count + 1], p)
  {
    assert arr[i + 1..count + 1] == arr[i + 1..count] + [arr[count]];
    FilterConcat(arr[i + 1..count], [arr[count]], p);
  }

  lemma UpDone(arr: seq<Row>, i: nat, x: nat, count: int, found: seq<Row>)
    requires -1 <= count < i < |arr| && |arr[i]| > ChatName
    requires Reverse(found) == Filter(arr[count + 1..i], InChat(arr[i][ChatName]))
    requires |found| <= x && (count < 0 || |found| == x)
    ensures Reverse(found) == UpRows(arr, i, x)
  {
    var p := InChat(arr[i][ChatName]);
    var s := Filter(arr[..i], p);
    var before, after := Filter(arr[..count + 1], p), Filter(arr[count + 1..i], p);
    PrefixSplit(arr, count + 1, i);
    FilterConcat(arr[..count + 1], arr[count + 1..i], p);
    assert s == before + after && |after| == |found|;
    if count < 0 {
      assert arr[..count + 1] == [];
      assert before == [] && s == after;
      assert Min(x, |s|) == |s|;
      assert s[|s| - Min(x, |s|)..] == s;
    } else {
      assert Min(x, |s|) == |after|;
      assert (before + after)[|before|..] == after;
    }
  }

  lemma DownDone(arr: seq<Row>, i: nat, x: nat, count: int, found: seq<Row>)
    requires i < count <= |arr| && |arr[i]| > ChatName
    requires found == Filter(arr[i + 1..count], InChat(arr[i][ChatName]))
    requires |found| <= x && (count >= |arr| || |found| == x)
    ensures found == DownRows(arr, i, x)
  {
    var p := InChat(arr[i][ChatName]);
    var s := Filter(arr[i + 1..], p);
    assert arr[i + 1..] == arr[i + 1..count] + arr[count..];
    FilterConcat(arr[i + 1..count], arr[count..], p);
    if count >= |arr| {
      assert arr[count..] == [];
    }
    assert s[..Min(x, |s|)] == found;
  }

  /** Adjacent rows come from the right side of row `i` and from its chat, and there
      are `x` of them unless the chat has fewer rows on that side. */
  lemma AdjRowsProperties(arr: seq<Row>, i: nat, x: nat)
    requires i < |arr| && AllWellFormed(arr)
    ensures var up := UpRows(arr, i, x);
      && (forall k :: 0 <= k < |up| ==> up[k] in arr[..i] && up[k][ChatName] == arr[i][ChatName])
      && |up| == Min(x, |Filter(arr[..i], InChat(arr[i][ChatName]))|)
    ensures var down := DownRows(arr, i, x);
      && (forall k :: 0 <= k < |down| ==> down[k] in arr[i + 1..] && down[k][ChatName] == arr[i][ChatName])
      && |down| == Min(x, |Filter(arr[i + 1..], InChat(arr[i][ChatName]))|)
  {
    var p := InChat(arr[i][ChatName]);
    var s := Filter(arr[..i], p);
    var up := UpRows(arr, i, x);
    FilterMembers(arr[..i], p);
    forall k | 0 <= k < |up|
      ensures up[k] in arr[..i] && up[k][ChatName] == arr[i][ChatName]
    {
      assert up[k] == s[|s| - Min(x, |s|) + k];
    }
    var t := Filter(arr[i + 1..], p);
    var down := DownRows(arr, i, x);
    FilterMembers(arr[i + 1..], p);
    forall k | 0 <= k < |down|
      ensures down[k] in arr[i + 1..] && down[k][ChatName] == arr[i][ChatName]
    {
      assert down[k] == t[k];
    }
  }

  /** First row of the run of row `i`'s chat that ends at `i`. */
  function RunStart(arr: seq<Row>, i: nat): (r: nat)
    requires i < |arr| && AllWellFormed(arr)
    ensures r <= i && (r == 0 || arr[r - 1][ChatName] != arr[i][ChatName])
    ensures forall k :: r <= k <= i ==> arr[k][ChatName] == arr[i][ChatName]
    decreases i
  {
    if i == 0 || arr[i - 1][ChatName] != arr[i][ChatName] then i else RunStart(arr, i - 1)
  }

  /** Last row of the run of row `i`'s chat that starts at `i`. */
  function RunEnd(arr: seq<Row>, i: nat): (r: nat)
    requires i < |arr| && AllWellFormed(arr)
    ensures i <= r < |arr| && (r == |arr| - 1 || arr[r + 1][ChatName] != arr[i][ChatName])
    ensures forall k :: i <= k <= r ==> arr[k][ChatName] == arr[i][ChatName]
    decreases |arr| - i
  {
    if i == |arr| - 1 || arr[i + 1][ChatName] != arr[i][ChatName] then i else RunEnd(arr, i + 1)
  }

  /** On a log grouped by chat, the rows above are the contiguous predecessors of
      row `i` inside its chat's run... */
  lemma UpRowsGrouped(arr: seq<Row>, i: nat, x: nat)
    requires i < |arr| && AllWellFormed(arr) && Grouped(arr)
    ensures UpRows(arr, i, x) == arr[i - Min(x, i - RunStart(arr, i))..i]
  {
    var r := RunStart(arr, i);
    ChatRowsAbove(arr, i, r);
    UpRowsOfRun(arr, i, x, r);
  }

  lemma ChatRowsAbove(arr: seq<Row>, i: nat, r: nat)
    requires i < |arr| && AllWellFormed(arr) && Grouped(arr) && r == RunStart(arr, i)
    ensures Filter(arr[..i], InChat(arr[i][ChatName])) == arr[r..i]
  {
    BeforeRunDiffers(arr, i, r);
    OtherChatsBefore(arr, r, arr[i][ChatName]);
    RunBefore(arr, i, r);
  }

  lemma UpRowsOfRun(arr: seq<Row>, i: nat, x: nat, r: nat)
    requires r <= i < |arr| && AllWellFormed(arr)
    requires Filter(arr[..i], InChat(arr[i][ChatName])) == arr[r..i]
    ensures UpRows(arr, i, x) == arr[i - Min(x, i - r)..i]
  {
    var m := Min(x, i - r);
    assert |arr[r..i]| == i - r;
    assert arr[r..i][i - r - m..] == arr[i - m..i];
  }

  /** The chat's rows above `i` are `arr[r..i]` when none precede `r` and all of
      `arr[r..i]` belong to the chat. */
  lemma RunBefore(arr: seq<Row>, i: nat, r: nat)
    requires i < |arr| && AllWellFormed(arr) && r <= i
    requires Filter(arr[..r], InChat(arr[i][ChatName])) == []
    requires forall k :: r <= k <= i ==> arr[k][ChatName] == arr[i][ChatName]
    ensures Filter(arr[..i], InChat(arr[i][ChatName])) == arr[r..i]
  {
    var run := arr[r..i];
    forall k | 0 <= k < |run|
      ensures InChat(arr[i][ChatName])(run[k])
    {
      assert run[k] == arr[r + k];
    }
    assert arr[..i] == arr[..r] + run;
    FilterNoneThenAll(arr[..r], run, InChat(arr[i][ChatName]));
  }

  /** ... and the rows below its contiguous successors. */
  lemma DownRowsGrouped(arr: seq<Row>, i: nat, x: nat)
    requires i < |arr| && AllWellFormed(arr) && Grouped(arr)
    ensures DownRows(arr, i, x) == arr[i + 1..i + 1 + Min(x, RunEnd(arr, i) - i)]
  {
    var e := RunEnd(arr, i);
    ChatRowsBelow(arr, i, e);
    DownRowsOfRun(arr, i, x, e);
  }

  lemma ChatRowsBelow(arr: seq<Row>, i: nat, e: nat)
    requires i < |arr| && AllWellFormed(arr) && Grouped(arr) && e == RunEnd(arr, i)
    ensures Filter(arr[i + 1..], InChat(arr[i][ChatName])) == arr[i + 1..e + 1]
  {
    AfterRunDiffers(arr, i, e);
    OtherChatsFrom(arr, e + 1, arr[i][ChatName]);
    RunAfter(arr, i, e);
  }

  lemma DownRowsOfRun(arr: seq<Row>, i: nat, x: nat, e: nat)
    requires i <= e < |arr| && AllWellFormed(arr)
    requires Filter(arr[i + 1..], InChat(arr[i][ChatName])) == arr[i + 1..e + 1]
    ensures DownRows(arr, i, x) == arr[i + 1..i + 1 + Min(x, e - i)]
  {
    var m := Min(x, e - i);
    assert |arr[i + 1..e + 1]| == e - i;
    assert arr[i + 1..e + 1][..m] == arr[i + 1..i + 1 + m];
  }

  /** The chat's rows below `i` are `arr[i+1..e+1]` when none follow `e` and all of
      `arr[i+1..e+1]` belong to the chat. */
  lemma RunAfter(arr: seq<Row>, i: nat, e: nat)
    requires i <= e < |arr| && AllWellFormed(arr)
    requires Filter(arr[e + 1..], InChat(arr[i][ChatName])) == []
    requires forall k :: i <= k <= e ==> arr[k][ChatName] == arr[i][ChatName]
    ensures Filter(arr[i + 1..], InChat(arr[i][ChatName])) == arr[i + 1..e + 1]
  {
    var run := arr[i + 1..e + 1];
    forall k | 0 <= k < |run|
      ensures InChat(arr[i][ChatName])(run[k])
    {
      assert run[k] == arr[i + 1 + k];
    }
    assert arr[i + 1..] == run + arr[e + 1..];
    FilterAllThenNone(run, arr[e + 1..], InChat(arr[i][ChatName]));
  }

  lemma GroupedAt(arr: seq<Row>, a: nat, b: nat, c: nat)
    requires AllWellFormed(arr) && Grouped(arr) && a < b < c < |arr|
    ensures arr[a][ChatName] == arr[c][ChatName] ==> arr[b][ChatName] == arr[a][ChatName]
  {
    assert InOneRun(arr, a, b, c);
  }

  /** No row before the start of row `i`'s run belongs to its chat. */
  lemma BeforeRunDiffers(arr: seq<Row>, i: nat, r: nat)
    requires i < |arr| && AllWellFormed(arr) && Grouped(arr) && r == RunStart(arr, i)
    ensures forall k :: 0 <= k < r ==> arr[k][ChatName] != arr[i][ChatName]
  {
    forall k | 0 <= k < r
      ensures arr[k][ChatName] != arr[i][ChatName]
    {
      if k < r - 1 {
        GroupedAt(arr, k, r - 1, i);
      }
    }
  }

  /** No row after the end of row `i`'s run belongs to its chat. */
  lemma AfterRunDiffers(arr: seq<Row>, i: nat, e: nat)
    requires i < |arr| && AllWellFormed(arr) && Grouped(arr) && e == RunEnd(arr, i)
    ensures forall k :: e + 1 <= k < |arr| ==> arr[k][ChatName] != arr[i][ChatName]
  {
    forall k | e + 1 <= k < |arr|
      ensures arr[k][ChatName] != arr[i][ChatName]
    {
      if k > e + 1 {
        GroupedAt(arr, i, e + 1, k);
      }
    }
  }

  lemma OtherChatsFrom(arr: seq<Row>, lo: nat, c: string)
    requires AllWellFormed(arr) && lo <= |arr|
    requires forall k :: lo <= k < |arr| ==> arr[k][ChatName] != c
    ensures Filter(arr[lo..], InChat(c)) == []
  {
    var post := arr[lo..];
    forall k | 0 <= k < |post|
      ensures post[k][ChatName] != c
    {
      assert post[k] == arr[lo + k];
    }
    OtherChats(post, c);
  }

  lemma OtherChatsBefore(arr: seq<Row>, hi: nat, c: string)
    requires AllWellFormed(arr) && hi <= |arr|
    requires forall k :: 0 <= k < hi ==> arr[k][ChatName] != c
    ensures Filter(arr[..hi], InChat(c)) == []
  {
    var pre := arr[..hi];
    forall k | 0 <= k < |pre|
      ensures pre[k][ChatName] != c
    {
      assert pre[k] == arr[k];
    }
    OtherChats(pre, c);
  }

  lemma OtherChats(rows: seq<Row>, c: string)
    requires AllWellFormed(rows)
    requires forall k :: 0 <= k < |rows| ==> rows[k][ChatName] != c
    ensures Filter(rows, InChat(c)) == []
  {
    FilterNone(rows, InChat(c));
  }

  // ---------------------------------------------------------------------------
  // The downward scan of one match

  /** Rows of the chat examined since the last tagged one among `arr[j+1..k]`:
      the value `countSinceLastMatch` has when the scan reaches row `k`. */
  function Dist(arr: seq<Row>, j: nat, k: nat, search: Search): (d: nat)
    requires AllWellFormed(arr) && j < k <= |arr|
    ensures d <= k - j - 1
    decreases k
  {
    if k == j + 1 then 0
    else if Tagged(arr[k - 1], search) then 0
    else Dist(arr, j, k - 1, search) + 1
  }

  /** The scan from `j` ends at row `k`: too far from the last match, the log ends,
      or the chat changes. */
  predicate Stop(arr: seq<Row>, j: nat, k: nat, maxDistance: nat, search: Search)
    requires AllWellFormed(arr) && j < k <= |arr|
  {
    Dist(arr, j, k, search) >= maxDistance + 1 || k == |arr| || arr[k][ChatName] != arr[j][ChatName]
  }

  function StopFrom(arr: seq<Row>, j: nat, k: nat, maxDistance: nat, search: Search): (e: nat)
    requires AllWellFormed(arr) && j < k <= |arr|
    ensures k <= e <= |arr| && Stop(arr, j, e, maxDistance, search)
    ensures forall m :: k <= m < e ==> !Stop(arr, j, m, maxDistance, search)
    decreases |arr| - k
  {
    if Stop(arr, j, k, maxDistance, search) then k else StopFrom(arr, j, k + 1, maxDistance, search)
  }

  /** The row at which the downward scan from match `j` stops. */
  function DownEnd(arr: seq<Row>, j: nat, maxDistance: nat, search: Search): (e: nat)
    requires AllWellFormed(arr) && j < |arr|
    ensures j < e <= |arr| && Stop(arr, j, e, maxDistance, search)
    ensures forall m :: j < m < e ==> !Stop(arr, j, m, maxDistance, search)
  {
    StopFrom(arr, j, j + 1, maxDistance, search)
  }

  lemma DownEndUnique(arr: seq<Row>, j: nat, maxDistance: nat, search: Search, e: nat)
    requires AllWellFormed(arr) && j < e <= |arr|
    requires Stop(arr, j, e, maxDistance, search)
    requires forall m :: j < m < e ==> !Stop(arr, j, m, maxDistance, search)
    ensures DownEnd(arr, j, maxDistance, search) == e
  {
  }

  /** A row as the context stream shows it: tagged rows get the emphasis appended. */
  function TagRow(row: Row, search: Search, emphasis: string): Row
    requires WellFormed(row)
  {
    if Tagged(row, search) then row + [emphasis] else row
  }

  function TagRows(rows: seq<Row>, search: Search, emphasis: string): (r: seq<Row>)
    requires AllWellFormed(rows)
    ensures |r| == |rows|
  {
    seq(|rows|, m requires 0 <= m < |rows| => TagRow(rows[m], search, emphasis))
  }

  lemma TagRowsSnoc(rows: seq<Row>, row: Row, search: Search, emphasis: string)
    requires AllWellFormed(rows) && WellFormed(row)
    ensures TagRows(rows + [row], search, emphasis) == TagRows(rows, search, emphasis) + [TagRow(row, search, emphasis)]
  {
  }

  /** `slicedFoundArr`: the scanned rows, tagged, without the rows beyond `x` after the
      last match. */
  function DownWindow(arr: seq<Row>, j: nat, x: nat, maxDistance: nat, search: Search, emphasis: string): seq<Row>
    requires AllWellFormed(arr) && j < |arr|
  {
    var e := DownEnd(arr, j, maxDistance, search);
    var found := TagRows(arr[j + 1..e], search, emphasis);
    var c := Dist(arr, j, e, search);
    if c > x then found[..|found| - (c - x)] else found
  }

  /** `foundNoAdjArr`: the tagged rows the scan passed over. */
  function DownMatches(arr: seq<Row>, j: nat, maxDistance: nat, search: Search): seq<Row>
    requires AllWellFormed(arr) && j < |arr|
  {
    Filter(arr[j + 1..DownEnd(arr, j, maxDistance, search)], TaggedIn(search))
  }

  /** The index `getDownAdj` returns: the last row examined when the distance ran out,
      otherwise the row that ended the scan. */
  function DownReturn(arr: seq<Row>, j: nat, maxDistance: nat, search: Search): (r: nat)
    requires AllWellFormed(arr) && j < |arr|
    ensures j + 1 <= r <= |arr|
    ensures DownEnd(arr, j, maxDistance, search) - 1 <= r <= DownEnd(arr, j, maxDistance, search)
  {
    var e := DownEnd(arr, j, maxDistance, search);
    if Dist(arr, j, e, search) >= maxDistance + 1 then e - 1 else e
  }

  /** `getDownAdj`: scans the chat of match `j` downwards while another match follows
      within `maxDistance` rows, then keeps `x` rows after the last match. */
  method GetDownAdj(arr: seq<Row>, j: nat, x: nat, maxDistance: nat, search: Search, keywordEmphasis: string)
    returns (slicedFoundArr: seq<Row>, foundNoAdjArr: seq<Row>, next: int)
    requires AllWellFormed(arr) && j < |arr|
    ensures slicedFoundArr == DownWindow(arr, j, x, maxDistance, search, keywordEmphasis)
    ensures foundNoAdjArr == DownMatches(arr, j, maxDistance, search)
    ensures next == DownReturn(arr, j, maxDistance, search)
  {
    var countSinceLastMatch := 0;
    var count := j + 1;
    var chatName := arr[j][ChatName];
    var foundArr: seq<Row> := [];
    foundNoAdjArr := [];
    ghost var e: int := -1;
    while countSinceLastMatch < maxDistance + 1
      invariant j + 1 <= count <= |arr| && e == -1
      invariant forall m :: j < m < count ==> !Stop(arr, j, m, maxDistance, search)
      invariant countSinceLastMatch == Dist(arr, j, count, search)
      invariant foundArr == TagRows(arr[j + 1..count], search, keywordEmphasis)
      invariant foundNoAdjArr == Filter(arr[j + 1..count], TaggedIn(search))
      decreases |arr| - count
    {
      if count >= |arr| {
        e := count;
        count := count + 1;
        break;
      }
      var sameChat := arr[count][ChatName] == chatName;
      if sameChat {
        ghost var before := foundArr;
        ghost var beforeMatches := foundNoAdjArr;
        foundArr := foundArr + [arr[count]];
        countSinceLastMatch := countSinceLastMatch + 1;
        if IsMatchByQuery(arr[count], search.query) && !IsInSpecialSources(arr[count], search.special) {
          countSinceLastMatch := 0;
          foundArr := foundArr[..|foundArr| - 1] + [foundArr[|foundArr| - 1] + [keywordEmphasis]];
          foundNoAdjArr := foundNoAdjArr + [arr[count]];
        }
        DownAdjStep(arr, j, count, search, keywordEmphasis, before, beforeMatches);
        assert foundArr == before + [TagRow(arr[count], search, keywordEmphasis)];
      } else {
        e := count;
        count := count + 1;
        break;
      }
      count := count + 1;
    }
    if e == -1 {
      e := count;
    }
    DownEndUnique(arr, j, maxDistance, search, e);
    slicedFoundArr := if countSinceLastMatch > x then foundArr[..|foundArr| - (countSinceLastMatch - x)] else foundArr;
    next := count - 1;
  }

  lemma DownAdjStep(arr: seq<Row>, j: nat, count: nat, search: Search, emphasis: string,
                    found: seq<Row>, matches: seq<Row>)
    requires AllWellFormed(arr) && j < count < |arr|
    requires found == TagRows(arr[j + 1..count], search, emphasis)
    requires matches == Filter(arr[j + 1..count], TaggedIn(search))
    ensures found + [TagRow(arr[count], search, emphasis)] == TagRows(arr[j + 1..count + 1], search, emphasis)
    ensures matches + (if Tagged(arr[count], search) then [arr[count]] else [])
            == Filter(arr[j + 1..count + 1], TaggedIn(search))
    ensures Dist(arr, j, count + 1, search) == if Tagged(arr[count], search) then 0 else Dist(arr, j, count, search) + 1
  {
    assert arr[j + 1..count + 1] == arr[j + 1..count] + [arr[count]];
    TagRowsSnoc(arr[j + 1..count], arr[count], search, emphasis);
    FilterConcat(arr[j + 1..count], [arr[count]], TaggedIn(search));
  }

  // ---------------------------------------------------------------------------
  // The outer loop: which rows it tests and what each contributes

  /** The loop counter after testing row `i`: a tagged row makes the loop resume
      after the index `getDownAdj` returned. */
  function Next(arr: seq<Row>, i: nat, search: Search): (n: nat)
    requires AllWellFormed(arr) && i < |arr|
    ensures i < n <= |arr| + 1
  {
    if Tagged(arr[i], search) then DownReturn(arr, i, NumOfAdjRowsBetweenMatches, search) + 1 else i + 1
  }

  /** The rows the outer loop tests, from counter value `i` on, in order. */
  function Visited(arr: seq<Row>, i: nat, search: Search): (r: seq<nat>)
    requires AllWellFormed(arr)
    ensures forall m :: 0 <= m < |r| ==> i <= r[m] < |arr|
    ensures forall m, n :: 0 <= m < n < |r| ==> r[m] < r[n]
    decreases |arr| - i
  {
    if i >= |arr| then [] else [i] + Visited(arr, Next(arr, i, search), search)
  }

  /** The indices of the tagged rows in `arr[lo..hi]`. */
  function TaggedIdx(arr: seq<Row>, lo: nat, hi: nat, search: Search): (r: seq<nat>)
    requires AllWellFormed(arr) && lo <= hi <= |arr|
    ensures forall m :: 0 <= m < |r| ==> lo <= r[m] < hi && Tagged(arr[r[m]], search)
    ensures forall k :: lo <= k < hi && Tagged(arr[k], search) ==> k in r
    ensures forall m, n :: 0 <= m < n < |r| ==> r[m] < r[n]
    decreases hi - lo
  {
    if lo == hi then []
    else
      var t := TaggedIdx(arr, lo + 1, hi, search);
      TaggedIdxCons(arr, lo, hi, search, t);
      (if Tagged(arr[lo], search) then [lo] else []) + t
  }

  /** The properties of `TaggedIdx` carry over from the rows after `lo` to `lo`. */
  lemma TaggedIdxCons(arr: seq<Row>, lo: nat, hi: nat, search: Search, t: seq<nat>)
    requires AllWellFormed(arr) && lo < hi <= |arr|
    requires forall m :: 0 <= m < |t| ==> lo + 1 <= t[m] < hi && Tagged(arr[t[m]], search)
    requires forall k :: lo + 1 <= k < hi && Tagged(arr[k], search) ==> k in t
    requires forall m, n :: 0 <= m < n < |t| ==> t[m] < t[n]
    ensures var r := (if Tagged(arr[lo], search) then [lo] else []) + t;
      && (forall m :: 0 <= m < |r| ==> lo <= r[m] < hi && Tagged(arr[r[m]], search))
      && (forall k :: lo <= k < hi && Tagged(arr[k], search) ==> k in r)
      && (forall m, n :: 0 <= m < n < |r| ==> r[m] < r[n])
  {
    var h: seq<nat> := if Tagged(arr[lo], search) then [lo] else [];
    var r := h + t;
    forall m | 0 <= m < |r|
      ensures lo <= r[m] < hi && Tagged(arr[r[m]], search)
    {
      if m >= |h| {
        assert r[m] == t[m - |h|];
      }
    }
    forall m, n | 0 <= m < n < |r|
      ensures r[m] < r[n]
    {
      assert r[n] == t[n - |h|];
      if m >= |h| {
        assert r[m] == t[m - |h|];
      }
    }
  }

  /** What testing row `k` adds to `filteredChats`, as indices: a match, and for a
      match outside the special sources also the matches its downward scan found. */
  function Contribution(arr: seq<Row>, k: nat, search: Search): (r: seq<nat>)
    requires AllWellFormed(arr) && k < |arr|
    ensures InRange(arr, r)
  {
    if !IsMatchByQuery(arr[k], search.query) then []
    else if IsInSpecialSources(arr[k], search.special) then [k]
    else [k] + TaggedIdx(arr, k + 1, DownEnd(arr, k, NumOfAdjRowsBetweenMatches, search), search)
  }

  predicate InRange(arr: seq<Row>, idx: seq<nat>)
  {
    forall m :: 0 <= m < |idx| ==> idx[m] < |arr|
  }

  /** The indices `filteredChats` is made of when the loop tests the rows `vs`. */
  function FilteredOf(arr: seq<Row>, vs: seq<nat>, search: Search): (r: seq<nat>)
    requires AllWellFormed(arr) && InRange(arr, vs)
    ensures InRange(arr, r)
    decreases |vs|
  {
    if |vs| == 0 then []
    else FilteredOf(arr, vs[..|vs| - 1], search) + Contribution(arr, vs[|vs| - 1], search)
  }

  /** The rows at the given indices. */
  function RowsAt(arr: seq<Row>, idx: seq<nat>): (r: seq<Row>)
    requires InRange(arr, idx)
    ensures |r| == |idx|
  {
    seq(|idx|, m requires 0 <= m < |idx| => arr[idx[m]])
  }

  /** The block of the context stream for the tagged row `a`. */
  function Block(arr: seq<Row>, a: nat, search: Search, cols: Columns): seq<Row>
    requires AllWellFormed(arr) && a < |arr|
  {
    UpRows(arr, a, NumOfAdjRows)
    + [arr[a] + [KeywordEmphasis]]
    + DownWindow(arr, a, NumOfAdjRows, NumOfAdjRowsBetweenMatches, search, KeywordEmphasis)
    + [Separator(cols.Width())]
  }

  /** The context stream when the loop tests the rows `vs`. */
  function ContextOf(arr: seq<Row>, vs: seq<nat>, search: Search, cols: Columns): seq<Row>
    requires AllWellFormed(arr) && InRange(arr, vs)
    decreases |vs|
  {
    if |vs| == 0 then []
    else
      var v := vs[|vs| - 1];
      ContextOf(arr, vs[..|vs| - 1], search, cols) + (if Tagged(arr[v], search) then Block(arr, v, search, cols) else [])
  }

  /** `createAdjAndFiltered`: returns the context stream and the matched rows. */
  method CreateAdjAndFiltered(arr: seq<Row>, search: Search, cols: Columns)
    returns (chatsWithAdjRows: seq<Row>, filteredChats: seq<Row>)
    requires AllWellFormed(arr)
    ensures chatsWithAdjRows == ContextOf(arr, Visited(arr, 0, search), search, cols)
    ensures filteredChats == RowsAt(arr, FilteredOf(arr, Visited(arr, 0, search), search))
  {
    chatsWithAdjRows := [];
    filteredChats := [];
    var adjacentSeparator := Separator(cols.Width());
    var numOfAdjRows := NumOfAdjRows;
    var numOfAdjRowsBetweenMatches := NumOfAdjRowsBetweenMatches;
    var keywordEmphasis := KeywordEmphasis;
    // `var newCount` is hoisted to the function and starts out undefined, and
    // `i < undefined` is false: -1 behaves the same.
    var newCount: int := -1;
    var i: nat := 0;
    ghost var vis: seq<nat> := [];
    while i < |arr|
      invariant newCount < i && InRange(arr, vis)
      invariant Visited(arr, 0, search) == vis + Visited(arr, i, search)
      invariant chatsWithAdjRows == ContextOf(arr, vis, search, cols)
      invariant filteredChats == RowsAt(arr, FilteredOf(arr, vis, search))
      decreases |arr| - i
    {
      ghost var visited := vis;
      ghost var tested := i;
      ghost var context := chatsWithAdjRows;
      ghost var filtered := filteredChats;
      ghost var count := newCount;
      ghost var upRows: seq<Row> := [];
      ghost var downRows: seq<Row> := [];
      ghost var downMatches: seq<Row> := [];
      if IsMatchByQuery(arr[i], search.query) {
        filteredChats := filteredChats + [arr[i]];
        if !IsInSpecialSources(arr[i], search.special) {
          var up := GetXAdjRows(arr, i, numOfAdjRows, Up);
          upRows := up;
          chatsWithAdjRows := chatsWithAdjRows + up;
          chatsWithAdjRows := chatsWithAdjRows + [arr[i] + [keywordEmphasis]];
          var downAdj, foundNoAdjArr, next := GetDownAdj(arr, i, numOfAdjRows, numOfAdjRowsBetweenMatches, search, keywordEmphasis);
          downRows := downAdj;
          downMatches := foundNoAdjArr;
          newCount := next;
          filteredChats := filteredChats + foundNoAdjArr;
          chatsWithAdjRows := chatsWithAdjRows + downAdj;
          chatsWithAdjRows := chatsWithAdjRows + [adjacentSeparator];
        }
      }
      vis := vis + [i];
      if i < newCount {
        i := newCount;
      }
      i := i + 1;
      LoopStep(arr, search, cols, visited, tested, context, filtered, count,
               vis, i, chatsWithAdjRows, filteredChats, newCount, upRows, downRows, downMatches);
    }
    assert vis + Visited(arr, i, search) == vis;
  }

  /** Testing row `i` and moving the counter to `Next` keeps the rows tested so far
      followed by the rows still to test equal to the full visiting order. */
  lemma VisitedStep(arr: seq<Row>, search: Search, vis: seq<nat>, i: nat, vis': seq<nat>, i': nat)
    requires AllWellFormed(arr) && i < |arr|
    requires Visited(arr, 0, search) == vis + Visited(arr, i, search)
    requires vis' == vis + [i] && i' == Next(arr, i, search)
    ensures Visited(arr, 0, search) == vis' + Visited(arr, i', search)
  {
    assert Visited(arr, i, search) == [i] + Visited(arr, i', search);
    assert vis + ([i] + Visited(arr, i', search)) == vis' + Visited(arr, i', search);
  }

  /** One pass of the loop body keeps the loop invariant: the state after testing
      row `i`, in the shape the body builds it, is the state the invariant describes
      for the rows tested so far extended by `i`. */
  lemma LoopStep(arr: seq<Row>, search: Search, cols: Columns,
                 vis: seq<nat>, i: nat, context: seq<Row>, filtered: seq<Row>, count: int,
                 vis': seq<nat>, i': nat, context': seq<Row>, filtered': seq<Row>, count': int,
                 up: seq<Row>, down: seq<Row>, found: seq<Row>)
    requires AllWellFormed(arr) && i < |arr| && count < i && InRange(arr, vis)
    requires Visited(arr, 0, search) == vis + Visited(arr, i, search)
    requires context == ContextOf(arr, vis, search, cols)
    requires filtered == RowsAt(arr, FilteredOf(arr, vis, search))
    requires Tagged(arr[i], search) ==> up == UpRows(arr, i, NumOfAdjRows)
    requires Tagged(arr[i], search) ==> down == DownWindow(arr, i, NumOfAdjRows, NumOfAdjRowsBetweenMatches, search, KeywordEmphasis)
    requires Tagged(arr[i], search) ==> found == DownMatches(arr, i, NumOfAdjRowsBetweenMatches, search)
    requires Tagged(arr[i], search) ==> count' == DownReturn(arr, i, NumOfAdjRowsBetweenMatches, search)
    requires !Tagged(arr[i], search) ==> count' == count
    requires context' == if Tagged(arr[i], search)
      then context + up + [arr[i] + [KeywordEmphasis]] + down + [Separator(cols.Width())]
      else context
    requires filtered' == if !IsMatchByQuery(arr[i], search.query) then filtered
      else if IsInSpecialSources(arr[i], search.special) then filtered + [arr[i]]
      else filtered + [arr[i]] + found
    requires vis' == vis + [i] && i' == (if i < count' then count' else i) + 1
    ensures count' < i' && InRange(arr, vis')
    ensures Visited(arr, 0, search) == vis' + Visited(arr, i', search)
    ensures context' == ContextOf(arr, vis', search, cols)
    ensures filtered' == RowsAt(arr, FilteredOf(arr, vis', search))
  {
    ContextStep(arr, i, vis, search, cols, context, context', up, down);
    ContributedShape(arr, i, search, filtered, filtered', found);
    FilteredStep(arr, i, vis, search, filtered, filtered');
    CounterStep(arr, i, search, count, count');
    VisitedStep(arr, search, vis, i, vis', i');
  }

  /** The rows the body appends to `filteredChats` are those testing row `i` contributes. */
  lemma ContributedShape(arr: seq<Row>, i: nat, search: Search, filtered: seq<Row>, filtered': seq<Row>, found: seq<Row>)
    requires AllWellFormed(arr) && i < |arr|
    requires Tagged(arr[i], search) ==> found == DownMatches(arr, i, NumOfAdjRowsBetweenMatches, search)
    requires filtered' == if !IsMatchByQuery(arr[i], search.query) then filtered
      else if IsInSpecialSources(arr[i], search.special) then filtered + [arr[i]]
      else filtered + [arr[i]] + found
    ensures filtered' == filtered + ContributedRows(arr, i, search)
  {
    if !IsMatchByQuery(arr[i], search.query) {
      assert ContributedRows(arr, i, search) == [];
      assert filtered + [] == filtered;
    } else if IsInSpecialSources(arr[i], search.special) {
      assert ContributedRows(arr, i, search) == [arr[i]];
    } else {
      assert ContributedRows(arr, i, search) == [arr[i]] + found;
      assert filtered + [arr[i]] + found == filtered + ([arr[i]] + found);
    }
  }

  /** The loop's next counter value: past the scan's stopping point after a match
      outside the special sources, the next row otherwise. */
  lemma CounterStep(arr: seq<Row>, i: nat, search: Search, count: int, count': int)
    requires AllWellFormed(arr) && i < |arr| && count < i
    requires Tagged(arr[i], search) ==> count' == DownReturn(arr, i, NumOfAdjRowsBetweenMatches, search)
    requires !Tagged(arr[i], search) ==> count' == count
    ensures (if i < count' then count' else i) + 1 == Next(arr, i, search)
  {
  }

  lemma ContextStep(arr: seq<Row>, i: nat, vis: seq<nat>, search: Search, cols: Columns,
                    context: seq<Row>, context': seq<Row>, up: seq<Row>, down: seq<Row>)
    requires AllWellFormed(arr) && i < |arr| && InRange(arr, vis)
    requires context == ContextOf(arr, vis, search, cols)
    requires Tagged(arr[i], search) ==> up == UpRows(arr, i, NumOfAdjRows)
    requires Tagged(arr[i], search) ==> down == DownWindow(arr, i, NumOfAdjRows, NumOfAdjRowsBetweenMatches, search, KeywordEmphasis)
    requires context' == if Tagged(arr[i], search)
      then context + up + [arr[i] + [KeywordEmphasis]] + down + [Separator(cols.Width())]
      else context
    ensures InRange(arr, vis + [i])
    ensures context' == ContextOf(arr, vis + [i], search, cols)
  {
    var vs := vis + [i];
    assert vs[..|vs| - 1] == vis && vs[|vs| - 1] == i;
    if Tagged(arr[i], search) {
      var h, sep := [arr[i] + [KeywordEmphasis]], [Separator(cols.Width())];
      assert Block(arr, i, search, cols) == up + h + down + sep;
      assert context + up + h + down + sep == context + (up + h + down + sep);
      assert ContextOf(arr, vs, search, cols) == context + Block(arr, i, search, cols);
    } else {
      assert ContextOf(arr, vs, search, cols) == context;
    }
  }

  lemma FilteredStep(arr: seq<Row>, i: nat, vis: seq<nat>, search: Search, filtered: seq<Row>, filtered': seq<Row>)
    requires AllWellFormed(arr) && i < |arr| && InRange(arr, vis)
    requires filtered == RowsAt(arr, FilteredOf(arr, vis, search))
    requires filtered' == filtered + ContributedRows(arr, i, search)
    ensures InRange(arr, vis + [i])
    ensures filtered' == RowsAt(arr, FilteredOf(arr, vis + [i], search))
  {
    var vs := vis + [i];
    var before := FilteredOf(arr, vis, search);
    var c := Contribution(arr, i, search);
    assert FilteredOf(arr, vs, search) == before + c by {
      assert vs[..|vs| - 1] == vis;
    }
    RowsAtConcat(arr, before, c);
    ContributionRows(arr, i, search);
  }

  /** The rows testing row `i` adds to `filteredChats`. */
  function ContributedRows(arr: seq<Row>, i: nat, search: Search): seq<Row>
    requires AllWellFormed(arr) && i < |arr|
  {
    if !IsMatchByQuery(arr[i], search.query) then []
    else if IsInSpecialSources(arr[i], search.special) then [arr[i]]
    else [arr[i]] + DownMatches(arr, i, NumOfAdjRowsBetweenMatches, search)
  }

  lemma ContributionRows(arr: seq<Row>, i: nat, search: Search)
    requires AllWellFormed(arr) && i < |arr|
    ensures RowsAt(arr, Contribution(arr, i, search)) == ContributedRows(arr, i, search)
  {
    if IsMatchByQuery(arr[i], search.query) && !IsInSpecialSources(arr[i], search.special) {
      var e := DownEnd(arr, i, NumOfAdjRowsBetweenMatches, search);
      var t := TaggedIdx(arr, i + 1, e, search);
      RowsAtConcat(arr, [i], t);
      TaggedRows(arr, i + 1, e, search);
    }
  }

  lemma RowsAtConcat(arr: seq<Row>, a: seq<nat>, b: seq<nat>)
    requires InRange(arr, a) && InRange(arr, b)
    ensures InRange(arr, a + b) && RowsAt(arr, a + b) == RowsAt(arr, a) + RowsAt(arr, b)
  {
  }

  /** The tagged indices pick out exactly the rows the tagged filter keeps. */
  lemma {:induction false} TaggedRows(arr: seq<Row>, lo: nat, hi: nat, search: Search)
    requires AllWellFormed(arr) && lo <= hi <= |arr|
    ensures RowsAt(arr, TaggedIdx(arr, lo, hi, search)) == Filter(arr[lo..hi], TaggedIn(search))
    decreases hi - lo
  {
    var s := arr[lo..hi];
    if lo == hi {
      assert TaggedIdx(arr, lo, hi, search) == [];
      assert RowsAt(arr, []) == [];
      assert s == [];
    } else {
      var head: seq<nat> := if Tagged(arr[lo], search) then [lo] else [];
      var tail := TaggedIdx(arr, lo + 1, hi, search);
      assert TaggedIdx(arr, lo, hi, search) == head + tail;
      TaggedRows(arr, lo + 1, hi, search);
      RowsAtConcat(arr, head, tail);
      assert RowsAt(arr, head) == if Tagged(arr[lo], search) then [arr[lo]] else [];
      assert s[0] == arr[lo] && s[1..] == arr[lo + 1..hi];
      assert Filter(s, TaggedIn(search))
          == (if TaggedIn(search)(s[0]) then [s[0]] else []) + Filter(s[1..], TaggedIn(search));
    }
  }
}
