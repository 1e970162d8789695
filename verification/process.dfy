/**
 * The state of one simulated process (src/Process.kt): its page range, its
 * resident set of frames with their last-use times, its fault counter and the
 * locality state the reference generator drives.
 *
 * The Kotlin class is mutable; here every mutator is a function from the old
 * state to the new one. The random draws the class makes are parameters.
 */
module ProcessState {
  import opened Results

  /** A closed range of page numbers, Kotlin's `IntRange(first, last)`. */
  datatype PageRange = PageRange(first: int, last: int)

  /**
   * The locality bookkeeping of a process. The base chance, the gain, the
   * scope bounds and the length bounds are drawn once when the process is
   * built and never change afterwards.
   */
  datatype Locality = Locality(
    baseChance: int,
    gain: int,
    currentChance: int,
    active: bool,               // `hasLocality`
    referencesLeft: int,
    currentRange: PageRange,
    minimalScope: nat,          // `(0.3 * pages.size).toInt()`, given
    maximalScope: nat,          // `(0.4 * pages.size).toInt()`, given
    minimalLength: int,
    maximalLength: int)

  /**
   * `frameMap` maps each resident page to the trace index of its last use.
   * `frameCapacity` is a `val` fixed at 0 in the source, although the
   * allocation policy calls `addFrameCapacity` on it; here it is a field that
   * `AddFrameCapacity` raises.
   */
  datatype Process = Process(
    firstPage: int,
    lastPage: int,
    locality: Locality,
    frameMap: map<int, int>,
    frameCapacity: int,
    pageFaultCount: int)

  /** `(first..last).toList()`: empty when `last < first`. */
  function PagesFrom(first: int, last: int): (r: seq<int>)
    ensures |r| == if last < first then 0 else last - first + 1
    ensures forall i :: 0 <= i < |r| ==> r[i] == first + i
    ensures forall x :: x in r <==> first <= x <= last
    decreases last - first
  {
    if last < first then [] else [first] + PagesFrom(first + 1, last)
  }

  function Pages(p: Process): seq<int> {
    PagesFrom(p.firstPage, p.lastPage)
  }

  /** `hasPage`, which `Process` does not define: membership in `pages`. */
  predicate HasPage(p: Process, page: int)
    ensures HasPage(p, page) <==> page in Pages(p)
  {
    p.firstPage <= page <= p.lastPage
  }

  /**
   * `Process(firstPage, lastPage)` with the constructor's random draws passed
   * in. The two scope bounds are the floors of 0.3 and 0.4 times the page
   * count, so the lower one never exceeds the upper one.
   */
  function NewProcess(firstPage: int, lastPage: int, baseChance: int, gain: int,
                      minimalScope: nat, maximalScope: nat,
                      minimalLength: int, maximalLength: int): (p: Process)
    requires minimalScope <= maximalScope
    ensures p.firstPage == firstPage && p.lastPage == lastPage
    ensures Pages(p) == PagesFrom(firstPage, lastPage)
    ensures p.frameMap == map[] && p.frameCapacity == 0 && p.pageFaultCount == 0
    ensures p.locality.baseChance == baseChance && p.locality.gain == gain
    ensures !p.locality.active && p.locality.currentChance == baseChance
    ensures p.locality.referencesLeft == 0 && p.locality.currentRange == PageRange(0, 0)
    ensures p.locality.minimalScope == minimalScope && p.locality.maximalScope == maximalScope
    ensures p.locality.minimalLength == minimalLength && p.locality.maximalLength == maximalLength
    ensures ValidScopes(p)
  {
    Process(firstPage, lastPage,
            Locality(baseChance, gain, baseChance, false, 0, PageRange(0, 0),
                     minimalScope, maximalScope, minimalLength, maximalLength),
            map[], 0, 0)
  }

  /** The scope bounds, as computed at construction, form a non-empty range. */
  predicate ValidScopes(p: Process) {
    p.locality.minimalScope <= p.locality.maximalScope
  }

  // ---------------------------------------------------------------------------
  // Resident set
  // ---------------------------------------------------------------------------

  /** `hasReference`, which `Process` does not define: the page is resident. */
  predicate HasReference(p: Process, page: int) {
    page in p.frameMap
  }

  /** `isFrameMapFull`: an equality test, not `>=`. */
  predicate IsFrameMapFull(p: Process) {
    |p.frameMap| == p.frameCapacity
  }

  /** `v` is a resident page whose last use is no later than any other's. */
  ghost predicate IsLeastRecentlyUsed(m: map<int, int>, v: int) {
    v in m && forall k | k in m :: m[v] <= m[k]
  }

  /** Order on resident pages: earlier last use first, the smaller page on a tie. */
  predicate Precedes(m: map<int, int>, a: int, b: int)
    requires a in m && b in m
  {
    m[a] < m[b] || (m[a] == m[b] && a <= b)
  }

  predicate IsFirstInOrder(m: map<int, int>, v: int) {
    v in m && forall k | k in m :: Precedes(m, v, k)
  }

  /**
   * A non-empty map has a key. Asserting `|m| != 0` or `m.Keys != {}` is not
   * enough for a `:|` over the keys once contradictory-assumption checking is
   * on, so the existence is derived by contradiction here.
   */
  lemma HasSomeKey(m: map<int, int>)
    requires m != map[]
    ensures exists k :: k in m
  {
    if forall k :: k !in m {
      assert false;
    }
  }

  lemma {:induction false} FirstInOrderExists(m: map<int, int>)
    requires m != map[]
    ensures exists v :: IsFirstInOrder(m, v)
    decreases |m|
  {
    HasSomeKey(m);
    var k :| k in m;
    var rest := m - {k};
    assert rest.Keys == m.Keys - {k};
    if rest == map[] {
      assert m.Keys - {k} == {};
      assert m.Keys == {k};
      assert IsFirstInOrder(m, k);
    } else {
      FirstInOrderExists(rest);
      var w :| IsFirstInOrder(rest, w);
      if Precedes(m, k, w) {
        forall j | j in m ensures Precedes(m, k, j) {
          if j != k { assert Precedes(rest, w, j); }
        }
        assert IsFirstInOrder(m, k);
      } else {
        forall j | j in m ensures Precedes(m, w, j) {
          if j != k { assert Precedes(rest, w, j); }
        }
        assert IsFirstInOrder(m, w);
      }
    }
  }

  /**
   * The page `minBy { it.value }` picks: the least recently used one. Kotlin
   * breaks a tie by map iteration order; this model by the smaller page.
   */
  function LeastRecentlyUsed(m: map<int, int>): (v: int)
    requires m != map[]
    ensures IsLeastRecentlyUsed(m, v)
  {
    FirstInOrderExists(m);
    var v :| IsFirstInOrder(m, v);
    v
  }

  /** Distinct resident pages carry distinct last-use times. */
  ghost predicate Injective(m: map<int, int>) {
    forall a, b | a in m && b in m && a != b :: m[a] != m[b]
  }

  /** With distinct last-use times the least recently used page is unique. */
  lemma LeastRecentlyUsedUnique(m: map<int, int>, v: int)
    requires Injective(m)
    requires IsLeastRecentlyUsed(m, v)
    ensures m != map[] && LeastRecentlyUsed(m) == v
  {
    var w := LeastRecentlyUsed(m);
    assert m[v] <= m[w] && m[w] <= m[v];
  }

  /**
   * `removeLastRecentlyUsedReference` (the policy calls it under the name
   * `removeLeastRecentlyUsedReference`, which `Process` does not define).
   * On an empty map `minBy` yields null and removing null changes nothing.
   */
  function RemoveLeastRecentlyUsedReference(p: Process): (r: Process)
    ensures p.frameMap == map[] ==> r == p
    ensures p.frameMap != map[] ==>
              exists v :: IsLeastRecentlyUsed(p.frameMap, v) && r.frameMap == p.frameMap - {v}
    ensures |r.frameMap| == if p.frameMap == map[] then 0 else |p.frameMap| - 1
    ensures forall k | k in r.frameMap :: k in p.frameMap && p.frameMap[k] == r.frameMap[k]
    ensures r == p.(frameMap := r.frameMap)
  {
    if p.frameMap == map[] then p
    else
      var v := LeastRecentlyUsed(p.frameMap);
      assert (p.frameMap - {v}).Keys == p.frameMap.Keys - {v};
      p.(frameMap := p.frameMap - {v})
  }

  /** `addReference`: `frameMap[reference] = useTime`, inserting or refreshing. */
  function AddReference(p: Process, reference: int, useTime: int): (r: Process)
    ensures reference in r.frameMap && r.frameMap[reference] == useTime
    ensures r.frameMap.Keys == p.frameMap.Keys + {reference}
    ensures forall k | k in p.frameMap && k != reference :: r.frameMap[k] == p.frameMap[k]
    ensures |r.frameMap| == if reference in p.frameMap then |p.frameMap| else |p.frameMap| + 1
    ensures r == p.(frameMap := r.frameMap)
  {
    p.(frameMap := p.frameMap[reference := useTime])
  }

  /** `incrementFaultCount`, the only writer of `pageFaultCount`. */
  function IncrementFaultCount(p: Process): (r: Process)
    ensures r.pageFaultCount == p.pageFaultCount + 1
    ensures r == p.(pageFaultCount := r.pageFaultCount)
  {
    p.(pageFaultCount := p.pageFaultCount + 1)
  }

  /** `addFrameCapacity`, which `Process` does not define: raise the capacity by `frames`. */
  function AddFrameCapacity(p: Process, frames: int): (r: Process)
    ensures r.frameCapacity == p.frameCapacity + frames
    ensures r == p.(frameCapacity := r.frameCapacity)
  {
    p.(frameCapacity := p.frameCapacity + frames)
  }

  /**
   * `reset`, which `Process` does not define: the state a policy run leaves
   * behind for the next one, with no resident pages, no frames and no faults.
   */
  function Reset(p: Process): (r: Process)
    ensures r.frameMap == map[] && r.frameCapacity == 0 && r.pageFaultCount == 0
    ensures r.firstPage == p.firstPage && r.lastPage == p.lastPage && r.locality == p.locality
  {
    p.(frameMap := map[], frameCapacity := 0, pageFaultCount := 0)
  }

  /** Two resets in a row leave the same state as one. */
  lemma ResetIdempotent(p: Process)
    ensures Reset(Reset(p)) == Reset(p)
  {
  }

  /** A process fresh from its constructor is already in the state `reset` leaves behind. */
  lemma NewProcessIsReset(firstPage: int, lastPage: int, baseChance: int, gain: int,
                          minimalScope: nat, maximalScope: nat,
                          minimalLength: int, maximalLength: int)
    requires minimalScope <= maximalScope
    ensures var p := NewProcess(firstPage, lastPage, baseChance, gain,
                                minimalScope, maximalScope, minimalLength, maximalLength);
            Reset(p) == p
  {
  }

  // ---------------------------------------------------------------------------
  // Locality
  // ---------------------------------------------------------------------------

  function Min(a: int, b: int): int {
    if a <= b then a else b
  }

  /** `incrementLocalityChance`: add the gain, saturating at 100. */
  function IncrementLocalityChance(p: Process): (r: Process)
    ensures r.locality.currentChance == Min(100, p.locality.currentChance + p.locality.gain)
    ensures r.locality.currentChance <= 100
    ensures r == p.(locality := p.locality.(currentChance := r.locality.currentChance))
  {
    var chance := p.locality.currentChance + p.locality.gain;
    p.(locality := p.locality.(currentChance := if chance > 100 then 100 else chance))
  }

  /** `times` calls of `incrementLocalityChance` in a row. */
  function IncrementLocalityChanceTimes(p: Process, times: nat): Process
    decreases times
  {
    if times == 0 then p else IncrementLocalityChance(IncrementLocalityChanceTimes(p, times - 1))
  }

  /**
   * With a positive gain the chance climbs by at least one per call and
   * never passes 100: after `100 - chance` calls it is pinned at 100.
   */
  lemma {:induction false} LocalityChanceSaturates(p: Process, times: nat)
    requires p.locality.gain >= 1 && p.locality.currentChance <= 100
    ensures var c := IncrementLocalityChanceTimes(p, times).locality.currentChance;
            Min(100, p.locality.currentChance + times) <= c <= 100
    ensures times >= 100 - p.locality.currentChance ==>
              IncrementLocalityChanceTimes(p, times).locality.currentChance == 100
    ensures IncrementLocalityChanceTimes(p, times).locality.gain == p.locality.gain
    decreases times
  {
    if times > 0 {
      LocalityChanceSaturates(p, times - 1);
    }
  }

  /**
   * `startLocality`: mark the process as inside a locality burst, draw the
   * burst's page range (`generateLocalityRange`) and its length
   * (`generateLocalityLength`). The draws are parameters: `rangeLength` from
   * the scope bounds, `startIndex` from `0 until pages.size - rangeLength`,
   * `length` from the length bounds. A draw from an empty range throws.
   */
  function StartLocality(p: Process, rangeLength: int, startIndex: int, length: int): (r: Result<Process>)
    requires ValidScopes(p)
    requires p.locality.minimalScope <= rangeLength <= p.locality.maximalScope
    requires rangeLength < |Pages(p)| ==> 0 <= startIndex < |Pages(p)| - rangeLength
    requires p.locality.minimalLength <= p.locality.maximalLength ==>
               p.locality.minimalLength <= length <= p.locality.maximalLength
    ensures r.Failure? <==>
              |Pages(p)| <= rangeLength || p.locality.maximalLength < p.locality.minimalLength
    ensures r.Success? ==>
              && r.value.locality.active
              && p.firstPage <= r.value.locality.currentRange.first
              && r.value.locality.currentRange.last <= p.lastPage
              && r.value.locality.currentRange.last - r.value.locality.currentRange.first == rangeLength
              && r.value.locality.referencesLeft == length
              && r.value == p.(locality := r.value.locality)
              && r.value.locality.currentChance == p.locality.currentChance
    ensures r.Success? ==>
              r.value == p.(locality := p.locality.(
                active := true,
                currentRange := PageRange(p.firstPage + startIndex, p.firstPage + startIndex + rangeLength),
                referencesLeft := length))
  {
    var pages := Pages(p);
    if |pages| - rangeLength <= 0 then Failure(EmptyRandomRange)
    else if p.locality.maximalLength < p.locality.minimalLength then Failure(EmptyRandomRange)
    else
      var range := PageRange(pages[startIndex], pages[startIndex + rangeLength]);
      Success(p.(locality := p.locality.(active := true, currentRange := range, referencesLeft := length)))
  }

  /** `stopLocality`: leave the burst and fall back to the base chance. */
  function StopLocality(p: Process): (r: Process)
    ensures !r.locality.active
    ensures r.locality.currentChance == r.locality.baseChance
    ensures r == p.(locality := p.locality.(active := false, currentChance := p.locality.baseChance))
  {
    p.(locality := p.locality.(active := false, currentChance := p.locality.baseChance))
  }

  /**
   * However many increments a burst went through, stopping it restores the
   * chance the process was built with.
   */
  lemma {:induction false} StopRestoresBaseChance(p: Process, times: nat)
    ensures StopLocality(IncrementLocalityChanceTimes(p, times)).locality.currentChance
            == p.locality.baseChance
    decreases times
  {
    if times > 0 {
      StopRestoresBaseChance(p, times - 1);
    }
  }

  /** `tickLocality`: one reference of the burst consumed. */
  function TickLocality(p: Process): (r: Process)
    ensures r.locality.referencesLeft == p.locality.referencesLeft - 1
    ensures r == p.(locality := p.locality.(referencesLeft := r.locality.referencesLeft))
  {
    p.(locality := p.locality.(referencesLeft := p.locality.referencesLeft - 1))
  }

  /** `isLocalityReferencesLeftZero`. */
  predicate IsLocalityReferencesLeftZero(p: Process) {
    p.locality.referencesLeft == 0
  }

  function TickLocalityTimes(p: Process, times: nat): Process
    decreases times
  {
    if times == 0 then p else TickLocality(TickLocalityTimes(p, times - 1))
  }

  /**
   * A burst started with `length` references left reports zero after exactly
   * `length` ticks, and at no other tick count.
   */
  lemma {:induction false} TicksReachZeroExactly(p: Process, times: nat)
    ensures TickLocalityTimes(p, times).locality.referencesLeft == p.locality.referencesLeft - times
    ensures IsLocalityReferencesLeftZero(TickLocalityTimes(p, times)) <==> times == p.locality.referencesLeft
    decreases times
  {
    if times > 0 {
      TicksReachZeroExactly(p, times - 1);
    }
  }

  /**
   * A fresh process with a gain drawn from `1..2 * LOCALITY_GAIN` climbs
   * from its base chance by at least one per increment up to 100, and
   * stopping a burst at any point returns it to the base chance.
   */
  lemma FreshProcessLocalityCycle(firstPage: int, lastPage: int, baseChance: int, gain: int,
                                  minimalScope: nat, maximalScope: nat,
                                  minimalLength: int, maximalLength: int, times: nat)
    requires minimalScope <= maximalScope
    requires gain >= 1 && baseChance <= 100
    ensures var p := NewProcess(firstPage, lastPage, baseChance, gain,
                                minimalScope, maximalScope, minimalLength, maximalLength);
            var q := IncrementLocalityChanceTimes(p, times);
            && Min(100, baseChance + times) <= q.locality.currentChance <= 100
            && StopLocality(q).locality.currentChance == baseChance
  {
    var p := NewProcess(firstPage, lastPage, baseChance, gain,
                        minimalScope, maximalScope, minimalLength, maximalLength);
    LocalityChanceSaturates(p, times);
    StopRestoresBaseChance(p, times);
  }
}
