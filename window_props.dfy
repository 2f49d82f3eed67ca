/** What the context extraction guarantees, proved about the functions that specify it. */
module WindowProperties {
  import opened Seqs
  import opened Schema
  import opened Classifier
  import opened Window

  // ---------------------------------------------------------------------------
  // The downward scan

  /** The scan from a tagged row stays in its chat, and there a row is tagged exactly
      when it matches: the special-source test of the scan never rejects a row. */
  lemma ScanStaysInChat(arr: seq<Row>, j: nat, maxDistance: nat, search: Search)
    requires AllWellFormed(arr) && j < |arr| && Tagged(arr[j], search)
    ensures forall m :: j < m < DownEnd(arr, j, maxDistance, search) ==>
      arr[m][ChatName] == arr[j][ChatName]
      && (Tagged(arr[m], search) <==> IsMatchByQuery(arr[m], search.query))
  {
    var e := DownEnd(arr, j, maxDistance, search);
    forall m | j < m < e
      ensures arr[m][ChatName] == arr[j][ChatName]
      ensures Tagged(arr[m], search) <==> IsMatchByQuery(arr[m], search.query)
    {
      assert !Stop(arr, j, m, maxDistance, search);
      SpecialnessFollowsChat(arr[m], arr[j], search.special);
    }
  }

  /** The last `Dist(j, k)` rows before `k` are untagged, and the distance counts down
      by one per row going back over them. */
  lemma {:induction false} DistTrailing(arr: seq<Row>, j: nat, k: nat, search: Search)
    requires AllWellFormed(arr) && j < k <= |arr|
    ensures forall m :: k - Dist(arr, j, k, search) <= m < k ==> !Tagged(arr[m], search)
    ensures forall m :: j < m <= k && k - Dist(arr, j, k, search) <= m ==>
      Dist(arr, j, m, search) == Dist(arr, j, k, search) - (k - m)
    decreases k
  {
    if k > j + 1 && !Tagged(arr[k - 1], search) {
      DistTrailing(arr, j, k - 1, search);
    }
  }

  /** `slicedFoundArr` is a prefix of the tagged scan that ends with at most `x` untagged
      rows after the last tagged one (the distance at its end is min(c, x) for the
      distance c at which the scan ended), and only untagged rows are cut off. */
  lemma WindowTrim(arr: seq<Row>, j: nat, x: nat, maxDistance: nat, search: Search, emphasis: string)
    requires AllWellFormed(arr) && j < |arr|
    ensures var w := DownWindow(arr, j, x, maxDistance, search, emphasis);
      var e := DownEnd(arr, j, maxDistance, search);
      var n := j + 1 + |w|;
      && n <= e
      && w == TagRows(arr[j + 1..n], search, emphasis)
      && Dist(arr, j, n, search) == Min(Dist(arr, j, e, search), x)
      && (forall m :: n <= m < e ==> !Tagged(arr[m], search))
  {
    var e := DownEnd(arr, j, maxDistance, search);
    var c := Dist(arr, j, e, search);
    var found := TagRows(arr[j + 1..e], search, emphasis);
    DistTrailing(arr, j, e, search);
    if c > x {
      var n := e - (c - x);
      assert found[..|found| - (c - x)] == TagRows(arr[j + 1..n], search, emphasis);
    }
  }

  /** A row of the chat at most `maxDistance + 1` rows below a tagged row, with only rows
      of that chat in between, is reached by its scan. */
  lemma CloseRowsScanned(arr: seq<Row>, a: nat, b: nat, maxDistance: nat, search: Search)
    requires AllWellFormed(arr) && a < b < |arr| && b - a <= maxDistance + 1
    requires forall m :: a < m <= b ==> arr[m][ChatName] == arr[a][ChatName]
    ensures b < DownEnd(arr, a, maxDistance, search)
  {
    var e := DownEnd(arr, a, maxDistance, search);
    assert forall m :: a < m <= b ==> !Stop(arr, a, m, maxDistance, search);
  }

  // ---------------------------------------------------------------------------
  // The rows the outer loop tests

  /** The loop tests row `i` first and then always resumes at `Next` of the row it tested. */
  lemma {:induction false} VisitedSteps(arr: seq<Row>, i: nat, search: Search)
    requires AllWellFormed(arr)
    ensures var r := Visited(arr, i, search);
      && (|r| > 0 <==> i < |arr|)
      && (|r| > 0 ==> r[0] == i)
      && (forall m :: 0 <= m < |r| - 1 ==> r[m + 1] == Next(arr, r[m], search))
    decreases |arr| - i
  {
    if i < |arr| {
      VisitedSteps(arr, Next(arr, i, search), search);
    }
  }

  /** Of two tested rows, the later one is at or after `Next` of the earlier one. */
  lemma VisitedOrder(arr: seq<Row>, v: nat, a: nat, search: Search)
    requires AllWellFormed(arr)
    requires v in Visited(arr, 0, search) && a in Visited(arr, 0, search) && v < a
    ensures Next(arr, v, search) <= a
  {
    var r := Visited(arr, 0, search);
    VisitedSteps(arr, 0, search);
    var p :| 0 <= p < |r| && r[p] == v;
    var q :| 0 <= q < |r| && r[q] == a;
    assert p < q;
    assert r[p + 1] == Next(arr, v, search);
  }

  /** The rows between a tested row and its `Next` are never tested. */
  lemma SkippedNotVisited(arr: seq<Row>, a: nat, k: nat, search: Search)
    requires AllWellFormed(arr) && a in Visited(arr, 0, search)
    requires a < k < Next(arr, a, search)
    ensures k !in Visited(arr, 0, search)
  {
    if k in Visited(arr, 0, search) {
      VisitedOrder(arr, a, k, search);
    }
  }

  // ---------------------------------------------------------------------------
  // The filtered stream

  /** What testing a row contributes lies between the row and the loop's next counter
      value, in increasing order, and consists of matches only. */
  lemma ContributionBounds(arr: seq<Row>, v: nat, search: Search)
    requires AllWellFormed(arr) && v < |arr|
    ensures var c := Contribution(arr, v, search);
      && (forall m :: 0 <= m < |c| ==> v <= c[m] < Next(arr, v, search))
      && (forall m, n :: 0 <= m < n < |c| ==> c[m] < c[n])
      && (forall m :: 0 <= m < |c| ==> IsMatchByQuery(arr[c[m]], search.query))
  {
    var c := Contribution(arr, v, search);
    if Tagged(arr[v], search) {
      var e := DownEnd(arr, v, NumOfAdjRowsBetweenMatches, search);
      var t := TaggedIdx(arr, v + 1, e, search);
      assert c == [v] + t;
      assert Next(arr, v, search) >= e;
      forall m | 0 <= m < |c|
        ensures v <= c[m] < Next(arr, v, search) && IsMatchByQuery(arr[c[m]], search.query)
      {
        if m > 0 {
          assert c[m] == t[m - 1];
        }
      }
      forall m, n | 0 <= m < n < |c|
        ensures c[m] < c[n]
      {
        assert c[n] == t[n - 1];
        if m > 0 {
          assert c[m] == t[m - 1];
        }
      }
    } else {
      assert |c| <= 1 && Next(arr, v, search) == v + 1;
    }
  }

  /** A row is contributed by testing row `v` iff it matches, and it is `v` itself or a
      row inside the downward scan of `v`, which then is tagged. */
  lemma ContributionMembers(arr: seq<Row>, v: nat, k: nat, search: Search)
    requires AllWellFormed(arr) && v < |arr| && k < |arr|
    ensures k in Contribution(arr, v, search) <==>
      IsMatchByQuery(arr[k], search.query)
      && (k == v || (Tagged(arr[v], search) && v < k < DownEnd(arr, v, NumOfAdjRowsBetweenMatches, search)))
  {
    if Tagged(arr[v], search) {
      ScanStaysInChat(arr, v, NumOfAdjRowsBetweenMatches, search);
    }
  }

  /** A sequence of tested rows as the loop produces them: increasing, and each row
      at or after `Next` of the one before. */
  ghost predicate Chain(arr: seq<Row>, vs: seq<nat>, search: Search)
    requires AllWellFormed(arr) && InRange(arr, vs)
  {
    && (forall m, n :: 0 <= m < n < |vs| ==> vs[m] < vs[n])
    && (forall m :: 0 <= m < |vs| - 1 ==> Next(arr, vs[m], search) <= vs[m + 1])
  }

  /** Every index of the filtered stream is a match, whatever rows are tested. */
  lemma {:induction false} FilteredAllMatch(arr: seq<Row>, vs: seq<nat>, search: Search)
    requires AllWellFormed(arr) && InRange(arr, vs)
    ensures forall m :: 0 <= m < |FilteredOf(arr, vs, search)| ==>
      IsMatchByQuery(arr[FilteredOf(arr, vs, search)[m]], search.query)
    decreases |vs|
  {
    if |vs| > 0 {
      var f0 := FilteredOf(arr, vs[..|vs| - 1], search);
      var c := Contribution(arr, vs[|vs| - 1], search);
      FilteredAllMatch(arr, vs[..|vs| - 1], search);
      ContributionBounds(arr, vs[|vs| - 1], search);
      var f := f0 + c;
      forall m | 0 <= m < |f|
        ensures IsMatchByQuery(arr[f[m]], search.query)
      {
        if m < |f0| {
          assert f[m] == f0[m];
        } else {
          assert f[m] == c[m - |f0|];
        }
      }
    }
  }

  /** Along a chain, the filtered indices lie between the first tested row and `Next`
      of the last. */
  lemma {:induction false} FilteredBounds(arr: seq<Row>, vs: seq<nat>, search: Search)
    requires AllWellFormed(arr) && InRange(arr, vs) && Chain(arr, vs, search) && |vs| > 0
    ensures forall m :: 0 <= m < |FilteredOf(arr, vs, search)| ==>
      vs[0] <= FilteredOf(arr, vs, search)[m] < Next(arr, vs[|vs| - 1], search)
    decreases |vs|
  {
    var init := vs[..|vs| - 1];
    var v := vs[|vs| - 1];
    var f0 := FilteredOf(arr, init, search);
    var c := Contribution(arr, v, search);
    ContributionBounds(arr, v, search);
    var f := f0 + c;
    if |init| > 0 {
      assert Chain(arr, init, search);
      FilteredBounds(arr, init, search);
      assert Next(arr, init[|init| - 1], search) <= v && vs[0] <= v;
    }
    forall m | 0 <= m < |f|
      ensures vs[0] <= f[m] < Next(arr, v, search)
    {
      if m < |f0| {
        assert f[m] == f0[m];
      } else {
        assert f[m] == c[m - |f0|];
      }
    }
  }

  /** Along a chain, the filtered indices strictly increase. */
  lemma {:induction false} FilteredIncreasing(arr: seq<Row>, vs: seq<nat>, search: Search)
    requires AllWellFormed(arr) && InRange(arr, vs) && Chain(arr, vs, search)
    ensures forall m, n :: 0 <= m < n < |FilteredOf(arr, vs, search)| ==>
      FilteredOf(arr, vs, search)[m] < FilteredOf(arr, vs, search)[n]
    decreases |vs|
  {
    if |vs| > 0 {
      var init := vs[..|vs| - 1];
      var v := vs[|vs| - 1];
      var f0 := FilteredOf(arr, init, search);
      var c := Contribution(arr, v, search);
      ContributionBounds(arr, v, search);
      assert Chain(arr, init, search);
      FilteredIncreasing(arr, init, search);
      if |init| > 0 {
        FilteredBounds(arr, init, search);
        assert Next(arr, init[|init| - 1], search) <= v;
      }
      var f := f0 + c;
      forall m, n | 0 <= m < n < |f|
        ensures f[m] < f[n]
      {
        if n < |f0| {
          assert f[m] == f0[m] && f[n] == f0[n];
        } else if m >= |f0| {
          assert f[m] == c[m - |f0|] && f[n] == c[n - |f0|];
        } else {
          assert f[m] == f0[m] && f[n] == c[n - |f0|];
        }
      }
    }
  }

  /** An index is in the stream iff some tested row contributed it. */
  lemma FilteredMembers(arr: seq<Row>, vs: seq<nat>, k: nat, search: Search)
    requires AllWellFormed(arr) && InRange(arr, vs)
    ensures k in FilteredOf(arr, vs, search) <==> exists v :: v in vs && k in Contribution(arr, v, search)
  {
    if k in FilteredOf(arr, vs, search) {
      var v := FilteredSource(arr, vs, k, search);
    }
    if exists v :: v in vs && k in Contribution(arr, v, search) {
      var v :| v in vs && k in Contribution(arr, v, search);
      ContributionFiltered(arr, vs, v, k, search);
    }
  }

  /** Each index of the stream was contributed by some tested row. */
  lemma {:induction false} FilteredSource(arr: seq<Row>, vs: seq<nat>, k: nat, search: Search) returns (v: nat)
    requires AllWellFormed(arr) && InRange(arr, vs) && k in FilteredOf(arr, vs, search)
    ensures v in vs && k in Contribution(arr, v, search)
    decreases |vs|
  {
    var init := vs[..|vs| - 1];
    var last := vs[|vs| - 1];
    assert vs == init + [last];
    if k in Contribution(arr, last, search) {
      v := last;
    } else {
      assert k in FilteredOf(arr, init, search);
      v := FilteredSource(arr, init, k, search);
    }
  }

  /** Each index a tested row contributes is in the stream. */
  lemma {:induction false} ContributionFiltered(arr: seq<Row>, vs: seq<nat>, v: nat, k: nat, search: Search)
    requires AllWellFormed(arr) && InRange(arr, vs) && v in vs && v < |arr|
    requires k in Contribution(arr, v, search)
    ensures k in FilteredOf(arr, vs, search)
    decreases |vs|
  {
    var init := vs[..|vs| - 1];
    var last := vs[|vs| - 1];
    assert vs == init + [last];
    if v != last {
      assert v in init;
      ContributionFiltered(arr, init, v, k, search);
    }
  }

  /** Every row of `filteredChats` matches the query, and the rows come in strictly
      increasing source order, so none appears twice. */
  lemma FilteredStream(arr: seq<Row>, search: Search)
    requires AllWellFormed(arr)
    ensures var f := FilteredOf(arr, Visited(arr, 0, search), search);
      && (forall m, n :: 0 <= m < n < |f| ==> f[m] < f[n])
      && (forall m :: 0 <= m < |f| ==> IsMatchByQuery(arr[f[m]], search.query))
  {
    VisitedSteps(arr, 0, search);
    FilteredIncreasing(arr, Visited(arr, 0, search), search);
    FilteredAllMatch(arr, Visited(arr, 0, search), search);
  }

  /** A row is in `filteredChats` iff it matches and it was either tested by the loop or
      lies inside the downward scan of a tested tagged row. */
  lemma FilteredMembership(arr: seq<Row>, k: nat, search: Search)
    requires AllWellFormed(arr) && k < |arr|
    ensures var vs := Visited(arr, 0, search);
      k in FilteredOf(arr, vs, search) <==>
        IsMatchByQuery(arr[k], search.query)
        && (k in vs || exists a :: a in vs && Tagged(arr[a], search) && a < k < DownEnd(arr, a, NumOfAdjRowsBetweenMatches, search))
  {
    var vs := Visited(arr, 0, search);
    FilteredMembers(arr, vs, k, search);
    forall v | v in vs
      ensures k in Contribution(arr, v, search) <==>
        IsMatchByQuery(arr[k], search.query)
        && (k == v || (Tagged(arr[v], search) && v < k < DownEnd(arr, v, NumOfAdjRowsBetweenMatches, search)))
    {
      ContributionMembers(arr, v, k, search);
    }
  }

  /** The row of another chat that ended a scan is consumed by it: the loop never tests
      it, so even when it matches it is missing from `filteredChats`. */
  lemma BoundaryRowSkipped(arr: seq<Row>, a: nat, search: Search)
    requires AllWellFormed(arr) && a in Visited(arr, 0, search) && Tagged(arr[a], search)
    requires var e := DownEnd(arr, a, NumOfAdjRowsBetweenMatches, search);
      e < |arr| && arr[e][ChatName] != arr[a][ChatName]
      && Dist(arr, a, e, search) <= NumOfAdjRowsBetweenMatches
    ensures var e := DownEnd(arr, a, NumOfAdjRowsBetweenMatches, search);
      && e !in Visited(arr, 0, search)
      && e !in FilteredOf(arr, Visited(arr, 0, search), search)
  {
    var vs := Visited(arr, 0, search);
    var e := DownEnd(arr, a, NumOfAdjRowsBetweenMatches, search);
    assert Next(arr, a, search) == e + 1;
    SkippedNotVisited(arr, a, e, search);
    FilteredMembership(arr, e, search);
    forall v | v in vs && Tagged(arr[v], search) && v < e
      ensures e >= DownEnd(arr, v, NumOfAdjRowsBetweenMatches, search)
    {
      if v < a {
        VisitedOrder(arr, v, a, search);
      } else if v > a {
        VisitedOrder(arr, a, v, search);
      }
    }
  }

  /** Two matches of one chat with at most seven rows of that chat between them land in
      one block: the later one is tagged inside the earlier one's downward rows and is
      never tested by the loop itself. */
  lemma CloseMatchesMerge(arr: seq<Row>, a: nat, b: nat, search: Search)
    requires AllWellFormed(arr) && a in Visited(arr, 0, search) && Tagged(arr[a], search)
    requires a < b < |arr| && b - a <= NumOfAdjRowsBetweenMatches + 1
    requires forall m :: a < m <= b ==> arr[m][ChatName] == arr[a][ChatName]
    requires IsMatchByQuery(arr[b], search.query)
    ensures b !in Visited(arr, 0, search)
    ensures var w := DownWindow(arr, a, NumOfAdjRows, NumOfAdjRowsBetweenMatches, search, KeywordEmphasis);
      b - a - 1 < |w| && w[b - a - 1] == arr[b] + [KeywordEmphasis]
  {
    CloseRowsScanned(arr, a, b, NumOfAdjRowsBetweenMatches, search);
    ScanStaysInChat(arr, a, NumOfAdjRowsBetweenMatches, search);
    SkippedNotVisited(arr, a, b, search);
    WindowTrim(arr, a, NumOfAdjRows, NumOfAdjRowsBetweenMatches, search, KeywordEmphasis);
  }

  // ---------------------------------------------------------------------------
  // The context stream

  /** A block is the rows above, the tagged anchor, the rows below and one separator as
      its last row; every other row is of the anchor's chat, so it is no separator
      unless the chat is itself named "---". */
  lemma BlockShape(arr: seq<Row>, a: nat, search: Search, cols: Columns)
    requires AllWellFormed(arr) && a < |arr| && Tagged(arr[a], search)
    ensures var b := Block(arr, a, search, cols);
      var u := |UpRows(arr, a, NumOfAdjRows)|;
      && u < |b| - 1
      && b[u] == arr[a] + [KeywordEmphasis]
      && b[|b| - 1] == Separator(cols.Width())
      && (forall k :: 0 <= k < |b| - 1 ==> |b[k]| > ChatName && b[k][ChatName] == arr[a][ChatName])
      && (arr[a][ChatName] != AdjacentSeparatorString ==>
            forall k :: 0 <= k < |b| - 1 ==> b[k] != Separator(cols.Width()))
  {
    var up := UpRows(arr, a, NumOfAdjRows);
    var w := DownWindow(arr, a, NumOfAdjRows, NumOfAdjRowsBetweenMatches, search, KeywordEmphasis);
    var b := Block(arr, a, search, cols);
    AdjRowsProperties(arr, a, NumOfAdjRows);
    WindowTrim(arr, a, NumOfAdjRows, NumOfAdjRowsBetweenMatches, search, KeywordEmphasis);
    ScanStaysInChat(arr, a, NumOfAdjRowsBetweenMatches, search);
    var n := a + 1 + |w|;
    forall k | 0 <= k < |w|
      ensures |w[k]| > ChatName && w[k][ChatName] == arr[a][ChatName]
    {
      assert w[k] == TagRow(arr[a + 1 + k], search, KeywordEmphasis);
    }
    var sep := Separator(cols.Width());
    forall k | 0 <= k < |b| - 1
      ensures |b[k]| > ChatName && b[k][ChatName] == arr[a][ChatName]
    {
      if k < |up| {
        assert b[k] == up[k];
      } else if k == |up| {
        assert b[k] == arr[a] + [KeywordEmphasis];
      } else {
        assert b[k] == w[k - |up| - 1];
      }
    }
  }

  /** The row is of the chat of one of the tested rows `vs` that is tagged. */
  predicate OfTaggedChat(arr: seq<Row>, vs: seq<nat>, row: Row, search: Search)
    requires AllWellFormed(arr) && InRange(arr, vs)
  {
    |row| > ChatName
    && exists p :: 0 <= p < |vs| && Tagged(arr[vs[p]], search) && row[ChatName] == arr[vs[p]][ChatName]
  }

  /** Every row of the context stream is a separator or a row of the chat of a tested
      tagged row. */
  lemma {:induction false} ContextRows(arr: seq<Row>, vs: seq<nat>, search: Search, cols: Columns)
    requires AllWellFormed(arr) && InRange(arr, vs)
    ensures forall k :: 0 <= k < |ContextOf(arr, vs, search, cols)| ==>
      ContextOf(arr, vs, search, cols)[k] == Separator(cols.Width())
      || OfTaggedChat(arr, vs, ContextOf(arr, vs, search, cols)[k], search)
    decreases |vs|
  {
    if |vs| > 0 {
      var init := vs[..|vs| - 1];
      var v := vs[|vs| - 1];
      ContextRows(arr, init, search, cols);
      var c0 := ContextOf(arr, init, search, cols);
      var blk := if Tagged(arr[v], search) then Block(arr, v, search, cols) else [];
      var c := c0 + blk;
      assert ContextOf(arr, vs, search, cols) == c;
      if Tagged(arr[v], search) {
        BlockShape(arr, v, search, cols);
      }
      forall k | 0 <= k < |c|
        ensures c[k] == Separator(cols.Width()) || OfTaggedChat(arr, vs, c[k], search)
      {
        if k < |c0| {
          assert c[k] == c0[k];
          if c[k] != Separator(cols.Width()) {
            assert OfTaggedChat(arr, init, c0[k], search);
            var p :| 0 <= p < |init| && Tagged(arr[init[p]], search) && c0[k][ChatName] == arr[init[p]][ChatName];
            assert vs[p] == init[p];
          }
        } else {
          assert c[k] == blk[k - |c0|];
          if k - |c0| < |blk| - 1 {
            assert vs[|vs| - 1] == v;
          }
        }
      }
    }
  }

  /** No row from a special source appears in the context stream, except as the
      separator, whose chat-name field is "---". */
  lemma ContextNotSpecial(arr: seq<Row>, search: Search, cols: Columns)
    requires AllWellFormed(arr)
    ensures forall k :: 0 <= k < |ContextOf(arr, Visited(arr, 0, search), search, cols)| ==>
      var row := ContextOf(arr, Visited(arr, 0, search), search, cols)[k];
      row == Separator(cols.Width()) || (|row| > ChatName && !IsInSpecialSources(row, search.special))
  {
    var vs := Visited(arr, 0, search);
    var c := ContextOf(arr, vs, search, cols);
    ContextRows(arr, vs, search, cols);
    forall k | 0 <= k < |c| && c[k] != Separator(cols.Width())
      ensures |c[k]| > ChatName && !IsInSpecialSources(c[k], search.special)
    {
      assert OfTaggedChat(arr, vs, c[k], search);
      var p :| 0 <= p < |vs| && Tagged(arr[vs[p]], search) && c[k][ChatName] == arr[vs[p]][ChatName];
      SpecialnessFollowsChat(c[k], arr[vs[p]], search.special);
    }
  }
}
