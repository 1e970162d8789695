/**
 * Partition construction (src/Generator.kt): `howMany - 1` distinct random
 * division points are drawn from `0..generationMaximum`, sorted, closed with
 * the maximum itself, and turned into contiguous page ranges of at least two
 * pages each.
 *
 * The values `(0..generationMaximum).random()` returns are a parameter: the
 * stream of draws the loop consumes, in order.
 */
module Generator {
  import opened Results
  import opened ProcessState

  // ---------------------------------------------------------------------------
  // Sequences of points
  // ---------------------------------------------------------------------------

  /** The set of values occurring in `s`. */
  function Values(s: seq<int>): set<int> {
    set x | x in s
  }

  predicate Distinct(s: seq<int>) {
    forall i, j :: 0 <= i < j < |s| ==> s[i] != s[j]
  }

  predicate Sorted(s: seq<int>) {
    forall i, j :: 0 <= i < j < |s| ==> s[i] <= s[j]
  }

  predicate StrictlyIncreasing(s: seq<int>) {
    forall i, j :: 0 <= i < j < |s| ==> s[i] < s[j]
  }

  /** A sequence never holds more distinct values than elements. */
  lemma {:induction false} ValuesBound(s: seq<int>)
    ensures |Values(s)| <= |s|
    decreases |s|
  {
    if |s| > 0 {
      var init := s[..|s| - 1];
      ValuesBound(init);
      assert s == init + [s[|s| - 1]];
      assert Values(s) == Values(init) + {s[|s| - 1]};
    }
  }

  /** The elements of `s` are pairwise different exactly when it has `|s|` distinct values. */
  lemma {:induction false} DistinctIffAllValues(s: seq<int>)
    ensures Distinct(s) <==> |Values(s)| == |s|
    decreases |s|
  {
    if |s| > 0 {
      var init := s[..|s| - 1];
      var x := s[|s| - 1];
      DistinctIffAllValues(init);
      assert s == init + [x];
      assert Values(s) == Values(init) + {x};
      if x in init {
        ValuesBound(init);
        assert Values(s) == Values(init);
        var i :| 0 <= i < |init| && init[i] == x;
        assert s[i] == s[|s| - 1];
      } else {
        assert |Values(s)| == |Values(init)| + 1;
        if Distinct(init) {
          assert Distinct(s);
        }
      }
    }
  }

  /** The integers `lo..hi`. */
  function Interval(lo: int, hi: int): (r: set<int>)
    ensures forall x :: x in r <==> lo <= x <= hi
    ensures |r| == if hi < lo then 0 else hi - lo + 1
    decreases hi - lo
  {
    if hi < lo then {} else Interval(lo, hi - 1) + {hi}
  }

  /** A subset is no larger than its superset. */
  lemma SubsetSize(a: set<int>, b: set<int>)
    requires a <= b
    ensures |a| <= |b|
  {
    assert b == a + (b - a);
    assert a * (b - a) == {};
  }

  // ---------------------------------------------------------------------------
  // Drawing the division points (lines 11-15)
  // ---------------------------------------------------------------------------

  /**
   * The loop of lines 12-15 from `points` on: while fewer than `need` points
   * are collected, take the next draw and keep it unless already present.
   * Running out of draws stands for the Kotlin loop drawing forever.
   */
  function Collect(points: seq<int>, draws: seq<int>, need: int): (r: seq<int>)
    requires Distinct(points)
    ensures Distinct(r)
    ensures |points| <= |r| && r[..|points|] == points
    ensures forall x :: x in r ==> x in points || x in draws
    ensures |points| <= need ==> |r| <= need
    ensures need <= |points| ==> r == points
    decreases |draws|
  {
    if need <= |points| || |draws| == 0 then points
    else if draws[0] in points then Collect(points, draws[1..], need)
    else
      var more := points + [draws[0]];
      assert Distinct(more);
      var r := Collect(more, draws[1..], need);
      assert r[..|points|] == more[..|points|];
      r
  }

  /** The draws contain at least `need` different values: the loop of lines 12-15 terminates on them. */
  predicate EnoughDistinct(draws: seq<int>, need: int) {
    need <= |Values(draws)|
  }

  /**
   * Draws holding `need` different values are enough: the loop collects
   * exactly `need` points from them.
   */
  lemma {:induction false} CollectReachesNeed(points: seq<int>, draws: seq<int>, need: int)
    requires Distinct(points) && |points| <= need
    requires need <= |Values(points + draws)|
    ensures |Collect(points, draws, need)| == need
    decreases |draws|
  {
    if |points| < need {
      if |draws| == 0 {
        assert points + draws == points;
        DistinctIffAllValues(points);
        assert false;
      } else {
        var d := draws[0];
        assert Values(points + draws) == Values(points) + {d} + Values(draws[1..]) by {
          assert points + draws == points + [d] + draws[1..];
        }
        if d in points {
          assert Values(points + draws[1..]) == Values(points + draws);
          CollectReachesNeed(points, draws[1..], need);
        } else {
          var more := points + [d];
          assert Distinct(more);
          assert Values(more + draws[1..]) == Values(points + draws);
          CollectReachesNeed(more, draws[1..], need);
        }
      }
    }
  }

  /** From no points, enough distinct draws give all `howMany - 1` division points. */
  lemma CollectsAllPoints(draws: seq<int>, howMany: int)
    requires EnoughDistinct(draws, howMany - 1)
    ensures howMany >= 1 ==> |Collect([], draws, howMany - 1)| == howMany - 1
  {
    if howMany >= 1 {
      assert [] + draws == draws;
      CollectReachesNeed([], draws, howMany - 1);
    }
  }

  /**
   * Pigeonhole: draws from `0..generationMaximum` hold at most
   * `generationMaximum + 1` different values, so the loop can only finish
   * when `howMany - 1 <= generationMaximum + 1`; otherwise it spins forever.
   */
  lemma DrawingNeedsRoom(draws: seq<int>, need: int, generationMaximum: int)
    requires DrawsInRange(draws, generationMaximum)
    requires EnoughDistinct(draws, need)
    ensures need <= if generationMaximum < 0 then 0 else generationMaximum + 1
  {
    assert Values(draws) <= Interval(0, generationMaximum);
    SubsetSize(Values(draws), Interval(0, generationMaximum));
  }

  // ---------------------------------------------------------------------------
  // Sorting (line 16)
  // ---------------------------------------------------------------------------

  /** A head no larger than any element of a sorted tail keeps the list sorted. */
  lemma PrependSorted(head: int, tail: seq<int>)
    requires Sorted(tail) && forall k :: 0 <= k < |tail| ==> head <= tail[k]
    ensures Sorted([head] + tail)
  {
    var r := [head] + tail;
    forall i, j | 0 <= i < j < |r| ensures r[i] <= r[j] {
      assert r[j] == tail[j - 1];
      if i > 0 {
        assert r[i] == tail[i - 1];
      }
    }
  }

  /** The head of a sorted list is no larger than anything inserted after it. */
  lemma HeadBelowInserted(s: seq<int>, x: int, rest: seq<int>)
    requires Sorted(s) && |s| > 0 && s[0] < x
    requires forall k :: 0 <= k < |rest| ==> rest[k] == x || rest[k] in s[1..]
    ensures forall k :: 0 <= k < |rest| ==> s[0] <= rest[k]
  {
    forall k | 0 <= k < |rest| ensures s[0] <= rest[k] {
      if rest[k] != x {
        var j :| 0 <= j < |s[1..]| && s[1..][j] == rest[k];
        assert rest[k] == s[j + 1];
      }
    }
  }

  function Insert(x: int, s: seq<int>): (r: seq<int>)
    requires Sorted(s)
    ensures Sorted(r)
    ensures multiset(r) == multiset(s) + multiset{x}
    ensures |r| == |s| + 1
    ensures forall k :: 0 <= k < |r| ==> r[k] == x || r[k] in s
  {
    if |s| == 0 then [x]
    else if x <= s[0] then
      PrependSorted(x, s);
      [x] + s
    else
      var rest := Insert(x, s[1..]);
      assert s == [s[0]] + s[1..];
      HeadBelowInserted(s, x, rest);
      PrependSorted(s[0], rest);
      assert multiset([s[0]] + rest) == multiset{s[0]} + multiset(rest);
      [s[0]] + rest
  }

  /** `MutableList.sort()`: the same points in ascending order. */
  function Sort(s: seq<int>): (r: seq<int>)
    ensures Sorted(r)
    ensures multiset(r) == multiset(s)
    ensures |r| == |s|
    ensures forall k :: 0 <= k < |r| ==> r[k] in s
  {
    if |s| == 0 then []
    else
      assert s == [s[0]] + s[1..];
      Insert(s[0], Sort(s[1..]))
  }

  /** Sorting distinct points gives a strictly increasing sequence of the same values. */
  lemma SortDistinct(s: seq<int>)
    requires Distinct(s)
    ensures StrictlyIncreasing(Sort(s)) && Values(Sort(s)) == Values(s)
  {
    var r := Sort(s);
    assert Values(r) == Values(s) by {
      forall x ensures x in Values(r) <==> x in Values(s) {
        assert x in r <==> x in multiset(r);
        assert x in s <==> x in multiset(s);
      }
    }
    DistinctIffAllValues(s);
    DistinctIffAllValues(r);
  }

  // ---------------------------------------------------------------------------
  // Building the ranges (lines 18-28)
  // ---------------------------------------------------------------------------

  /**
   * The points the ranges are built from: ascending, and when a range's last
   * page is read (every range but the final one) its list of pages is not
   * empty, so `pages.last()` is its last page.
   */
  predicate BuildablePoints(points: seq<int>) {
    && |points| >= 1
    && Sorted(points)
    && (|points| > 1 ==> points[0] >= 0)
  }

  /**
   * Lines 22-28: the first range is `0..points[0] + 2`; each further range
   * starts after the previous one and is two pages longer than the gap
   * between consecutive points.
   */
  function BuildRanges(points: seq<int>): (r: seq<PageRange>)
    requires BuildablePoints(points)
    ensures |r| == |points|
    decreases |points|
  {
    if |points| == 1 then [PageRange(0, points[0] + 2)]
    else
      var n := |points| - 1;
      assert BuildablePoints(points[..n]);
      var before := BuildRanges(points[..n]);
      var previousLast := before[n - 1].last;
      before + [PageRange(previousLast + 1, previousLast + 2 + points[n] - points[n - 1])]
  }

  /**
   * Closed form of the ranges: range `i` ends at `points[i] + 2 + 2i` and
   * every range after the first starts right after its predecessor.
   */
  lemma {:induction false} BuildRangesClosedForm(points: seq<int>)
    requires BuildablePoints(points)
    ensures var r := BuildRanges(points);
            && r[0].first == 0
            && (forall i :: 0 <= i < |r| ==> r[i].last == points[i] + 2 + 2 * i)
            && (forall i :: 1 <= i < |r| ==> r[i].first == r[i - 1].last + 1)
    decreases |points|
  {
    if |points| > 1 {
      var n := |points| - 1;
      assert BuildablePoints(points[..n]);
      BuildRangesClosedForm(points[..n]);
    }
  }

  /** Number of pages in a range. */
  function Size(range: PageRange): int {
    range.last - range.first + 1
  }

  /**
   * Every range after the first has the two base pages plus the gap between
   * its points, so at least two; the first has `points[0] + 3` pages.
   */
  lemma RangeSizes(points: seq<int>)
    requires BuildablePoints(points)
    ensures var r := BuildRanges(points);
            && Size(r[0]) == points[0] + 3
            && (forall i :: 1 <= i < |r| ==> Size(r[i]) == points[i] - points[i - 1] + 2)
            && (forall i :: 1 <= i < |r| ==> Size(r[i]) >= 2)
  {
    BuildRangesClosedForm(points);
  }

  /** Consecutive ranges that touch and are non-empty cover one interval without overlap. */
  predicate Partitions(r: seq<PageRange>, first: int, last: int) {
    && |r| >= 1
    && r[0].first == first
    && r[|r| - 1].last == last
    && (forall i :: 0 <= i < |r| ==> r[i].first <= r[i].last)
    && (forall i :: 1 <= i < |r| ==> r[i].first == r[i - 1].last + 1)
  }

  /** In a partition every page of the interval lies in exactly one range. */
  lemma {:induction false} PartitionOwnsEachPage(r: seq<PageRange>, first: int, last: int, page: int)
    requires Partitions(r, first, last) && first <= page <= last
    ensures exists i :: 0 <= i < |r| && r[i].first <= page <= r[i].last
    ensures forall i, j :: (0 <= i < |r| && 0 <= j < |r| && r[i].first <= page <= r[i].last
                            && r[j].first <= page <= r[j].last) ==> i == j
    decreases |r|
  {
    PartitionIncreasing(r, first, last);
    if page > r[|r| - 1].first - 1 || |r| == 1 {
      assert r[|r| - 1].first <= page <= r[|r| - 1].last;
    } else {
      var n := |r| - 1;
      assert Partitions(r[..n], first, r[n - 1].last);
      PartitionOwnsEachPage(r[..n], first, r[n - 1].last, page);
      var i :| 0 <= i < n && r[..n][i].first <= page <= r[..n][i].last;
      assert r[i].first <= page <= r[i].last;
    }
  }

  /** Ranges of a partition lie strictly one after another. */
  lemma {:induction false} PartitionIncreasing(r: seq<PageRange>, first: int, last: int)
    requires Partitions(r, first, last)
    ensures forall i, j :: 0 <= i < j < |r| ==> r[i].last < r[j].first
    decreases |r|
  {
    if |r| > 1 {
      var n := |r| - 1;
      assert Partitions(r[..n], first, r[n - 1].last);
      PartitionIncreasing(r[..n], first, r[n - 1].last);
      forall i, j | 0 <= i < j < |r| ensures r[i].last < r[j].first {
        if j < n {
          assert r[..n][i].last < r[..n][j].first;
        } else if i < n - 1 {
          assert r[..n][i].last < r[..n][n - 1].first;
        }
      }
    }
  }

  /** Every range of a partition lies inside the partitioned interval. */
  lemma PartitionWithin(r: seq<PageRange>, first: int, last: int)
    requires Partitions(r, first, last)
    ensures forall i :: 0 <= i < |r| ==> first <= r[i].first && r[i].last <= last
  {
    PartitionIncreasing(r, first, last);
    forall i | 0 <= i < |r| ensures first <= r[i].first && r[i].last <= last {
      if 0 < i {
        assert r[0].last < r[i].first;
      }
      if i < |r| - 1 {
        assert r[i].last < r[|r| - 1].first;
      }
    }
  }

  // ---------------------------------------------------------------------------
  // generateProcesses (lines 4-30)
  // ---------------------------------------------------------------------------

  /** Line 10: the room left for the division points after two base pages per process. */
  function GenerationMaximum(howMany: int, pageCount: int): int {
    pageCount - 2 * howMany
  }

  /** A draw of `(0..generationMaximum).random()` lies in that range. */
  predicate DrawsInRange(draws: seq<int>, generationMaximum: int) {
    forall d | d in draws :: 0 <= d <= generationMaximum
  }

  /** Line 13 with `howMany >= 2`: `(0..generationMaximum).random()` on an empty range throws. */
  predicate FirstDrawThrows(howMany: int, pageCount: int) {
    howMany >= 2 && GenerationMaximum(howMany, pageCount) < 0
  }

  /**
   * What the stream of draws stands for: values of `(0..generationMaximum).random()`
   * and, unless the very first draw throws, enough different values for the
   * loop of lines 12-15 to stop.
   */
  predicate DrawsSuffice(howMany: int, pageCount: int, draws: seq<int>) {
    && DrawsInRange(draws, GenerationMaximum(howMany, pageCount))
    && (FirstDrawThrows(howMany, pageCount) || EnoughDistinct(draws, howMany - 1))
  }

  /** Appending a bound no smaller than any element keeps the list sorted. */
  lemma SortedClosed(sorted: seq<int>, bound: int)
    requires Sorted(sorted) && forall k :: 0 <= k < |sorted| ==> sorted[k] <= bound
    ensures Sorted(sorted + [bound])
  {
  }

  /** The sorted, closed division points the ranges are built from (lines 11-18). */
  function DivisionPoints(howMany: int, pageCount: int, draws: seq<int>): (points: seq<int>)
    requires DrawsInRange(draws, GenerationMaximum(howMany, pageCount))
    ensures BuildablePoints(points)
    ensures |points| == if howMany <= 1 then 1 else |Collect([], draws, howMany - 1)| + 1
    ensures points[|points| - 1] == GenerationMaximum(howMany, pageCount)
  {
    var generationMaximum := GenerationMaximum(howMany, pageCount);
    var drawn := Collect([], draws, howMany - 1);
    var sorted := Sort(drawn);
    assert forall k :: 0 <= k < |sorted| ==> 0 <= sorted[k] <= generationMaximum by {
      forall k | 0 <= k < |sorted| ensures 0 <= sorted[k] <= generationMaximum {
        assert sorted[k] in drawn;
      }
    }
    SortedClosed(sorted, generationMaximum);
    sorted + [generationMaximum]
  }

  /**
   * `generateProcesses` with its random draws as a parameter: the page
   * ranges of the `howMany` processes, in order. The processes themselves
   * are `NewProcess` over these ranges with their own random parameters.
   *
   * Drawing from an empty range fails before any value is drawn; otherwise
   * the draws must supply enough distinct values for the loop of lines 12-15
   * to stop.
   */
  function GenerateProcesses(howMany: int, pageCount: int, draws: seq<int>): (r: Result<seq<PageRange>>)
    requires DrawsSuffice(howMany, pageCount, draws)
    ensures r.Failure? <==> FirstDrawThrows(howMany, pageCount)
    ensures r.Failure? ==> r == Failure(EmptyRandomRange)
    ensures r.Success? ==> |r.value| == if howMany <= 1 then 1 else howMany
    ensures r.Success? ==> r.value[0].first == 0
    ensures r.Success? ==> forall i :: 1 <= i < |r.value| ==> r.value[i].first == r.value[i - 1].last + 1
    ensures r.Success? ==> forall i :: 1 <= i < |r.value| ==> Size(r.value[i]) >= 2
    ensures r.Success? && howMany >= 1 ==> r.value[|r.value| - 1].last == pageCount
    ensures r.Success? && howMany <= 0 ==> r.value == [PageRange(0, pageCount - 2 * howMany + 2)]
  {
    var generationMaximum := GenerationMaximum(howMany, pageCount);
    if howMany >= 2 && generationMaximum < 0 then Failure(EmptyRandomRange)
    else
      var points := DivisionPoints(howMany, pageCount, draws);
      CollectsAllPoints(draws, howMany);
      BuildRangesClosedForm(points);
      RangeSizes(points);
      Success(BuildRanges(points))
  }

  /**
   * Fewer than `2 * howMany` pages for two or more processes: no draw can be
   * made, and the generation fails on the first one whatever else was drawn.
   */
  lemma TooFewPagesThrow(howMany: int, pageCount: int, draws: seq<int>)
    requires howMany >= 2 && pageCount < 2 * howMany
    ensures DrawsSuffice(howMany, pageCount, draws) <==> draws == []
    ensures DrawsSuffice(howMany, pageCount, draws) ==>
              GenerateProcesses(howMany, pageCount, draws) == Failure(EmptyRandomRange)
  {
    assert GenerationMaximum(howMany, pageCount) < 0;
    if draws != [] {
      var d := draws[0];
      assert d in draws;
      if DrawsInRange(draws, GenerationMaximum(howMany, pageCount)) {
        assert false;
      }
    }
  }

  /** `generateProcesses(2, 3)`: the draw range is `0..-1`, so the first draw throws. */
  lemma TwoProcessesOverThreePagesThrow()
    ensures DrawsSuffice(2, 3, [])
    ensures GenerateProcesses(2, 3, []) == Failure(EmptyRandomRange)
  {
  }

  /**
   * With at least one process the ranges partition pages `0..pageCount`:
   * `pageCount + 1` pages, one more than `pageCount`, since the first range
   * holds `points[0] + 3` pages.
   */
  lemma GeneratedRangesPartition(howMany: int, pageCount: int, draws: seq<int>)
    requires DrawsSuffice(howMany, pageCount, draws)
    requires howMany >= 1 && pageCount >= 0 && GenerateProcesses(howMany, pageCount, draws).Success?
    ensures Partitions(GenerateProcesses(howMany, pageCount, draws).value, 0, pageCount)
  {
    var points := DivisionPoints(howMany, pageCount, draws);
    RangeSizes(points);
  }

  /**
   * The boundaries between the ranges are the drawn points: range `i`,
   * except the final one, ends `2i + 2` pages after the `i`-th smallest
   * distinct draw, and the collected points are distinct values from the
   * draws.
   */
  lemma BoundariesAreDraws(howMany: int, pageCount: int, draws: seq<int>)
    requires DrawsSuffice(howMany, pageCount, draws)
    requires GenerateProcesses(howMany, pageCount, draws).Success?
    ensures var r := GenerateProcesses(howMany, pageCount, draws).value;
            var points := Sort(Collect([], draws, howMany - 1));
            && |points| == |r| - 1
            && StrictlyIncreasing(points)
            && (forall i :: 0 <= i < |points| ==> points[i] in Values(draws))
            && (forall i :: 0 <= i < |points| ==> r[i].last == points[i] + 2 + 2 * i)
  {
    var drawn := Collect([], draws, howMany - 1);
    var sorted := Sort(drawn);
    var points := DivisionPoints(howMany, pageCount, draws);
    assert points == sorted + [GenerationMaximum(howMany, pageCount)];
    CollectsAllPoints(draws, howMany);
    SortDistinct(drawn);
    BuildRangesClosedForm(points);
    assert forall i :: 0 <= i < |sorted| ==> sorted[i] in Values(draws) by {
      forall i | 0 <= i < |sorted| ensures sorted[i] in Values(draws) {
        assert sorted[i] in drawn;
      }
    }
  }
}
