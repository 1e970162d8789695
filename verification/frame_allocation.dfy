/**
 * The equal-distribution frame allocator (src/FrameAllocationAlgorithms.kt):
 * split the frame budget evenly over the processes, replay the reference
 * trace against each process's LRU resident set, and report the page faults
 * per process.
 */
module FrameAllocation {
  import opened Results
  import opened ProcessState

  // ---------------------------------------------------------------------------
  // Capacity split
  // ---------------------------------------------------------------------------

  /** Kotlin's `Int` division, which rounds toward zero. */
  function KotlinDiv(a: int, b: int): int
    requires b > 0
  {
    if a >= 0 then a / b else -((-a) / b)
  }

  /**
   * The frames that process `i` of `n` receives: the truncated share, and one
   * more for each of the first `frameCount - share * n` processes.
   */
  function EqualShare(frameCount: int, n: int, i: int): int
    requires n > 0
  {
    var share := KotlinDiv(frameCount, n);
    share + if i < frameCount - share * n then 1 else 0
  }

  /** The processes after each received its equal share. */
  function WithEqualShares(ps: seq<Process>, frameCount: int): (qs: seq<Process>)
    requires |ps| > 0
    ensures |qs| == |ps|
    ensures forall i :: 0 <= i < |ps| ==> qs[i] == AddFrameCapacity(ps[i], EqualShare(frameCount, |ps|, i))
  {
    seq(|ps|, i requires 0 <= i < |ps| => AddFrameCapacity(ps[i], EqualShare(frameCount, |ps|, i)))
  }

  /**
   * For a non-negative budget every process gets `frameCount / n` or one
   * more, and the extra frame goes to exactly the first `frameCount % n`
   * processes. A negative budget hands out no extra frames at all.
   */
  lemma EqualShareLaw(frameCount: int, n: int, i: int)
    requires n > 0 && 0 <= i < n
    ensures frameCount >= 0 ==>
              EqualShare(frameCount, n, i) == frameCount / n + (if i < frameCount % n then 1 else 0)
    ensures frameCount >= 0 ==>
              EqualShare(frameCount, n, i) == frameCount / n || EqualShare(frameCount, n, i) == frameCount / n + 1
    ensures frameCount < 0 ==> EqualShare(frameCount, n, i) == KotlinDiv(frameCount, n)
  {
    if frameCount < 0 {
      var q := (-frameCount) / n;
      assert -frameCount == q * n + (-frameCount) % n;
      assert frameCount - KotlinDiv(frameCount, n) * n == -((-frameCount) % n);
    }
  }

  /** The shares of processes `0 .. m - 1`. */
  function SumOfShares(frameCount: int, n: int, m: nat): int
    requires n > 0
    decreases m
  {
    if m == 0 then 0 else SumOfShares(frameCount, n, m - 1) + EqualShare(frameCount, n, m - 1)
  }

  lemma {:induction false} SumOfSharesPrefix(frameCount: int, n: int, m: nat)
    requires n > 0 && frameCount >= 0 && m <= n
    ensures SumOfShares(frameCount, n, m) == m * (frameCount / n) + Min(m, frameCount % n)
    decreases m
  {
    if m > 0 {
      SumOfSharesPrefix(frameCount, n, m - 1);
      EqualShareLaw(frameCount, n, m - 1);
      assert m * (frameCount / n) == (m - 1) * (frameCount / n) + frameCount / n;
    }
  }

  /** A non-negative budget is handed out completely: the shares add up to it. */
  lemma EqualSharesSumToBudget(frameCount: int, n: int)
    requires n > 0 && frameCount >= 0
    ensures SumOfShares(frameCount, n, n) == frameCount
  {
    SumOfSharesPrefix(frameCount, n, n);
  }

  /**
   * Starting from no frames, every process gets at least one frame exactly
   * when the budget covers one frame per process.
   */
  lemma EveryShareAtLeastOneIff(frameCount: int, n: int)
    requires n > 0
    ensures (forall i :: 0 <= i < n ==> EqualShare(frameCount, n, i) >= 1) <==> frameCount >= n
  {
    if frameCount >= n {
      forall i | 0 <= i < n ensures EqualShare(frameCount, n, i) >= 1 {
        EqualShareLaw(frameCount, n, i);
      }
    } else {
      EqualShareLaw(frameCount, n, n - 1);
      assert EqualShare(frameCount, n, n - 1) < 1;
    }
  }

  /**
   * Lines 3-13: every process gets `frameCount / processes.size` frames, then
   * the loop walks the processes handing out one frame each until the
   * remainder is used up. No processes at all is a division by zero.
   */
  method DistributeEqually(processes: seq<Process>, frameCount: int) returns (r: Result<seq<Process>>)
    ensures r.Failure? <==> |processes| == 0
    ensures r.Failure? ==> r.error == DivideByZero
    ensures r.Success? ==> r.value == WithEqualShares(processes, frameCount)
  {
    if |processes| == 0 {
      return Failure(DivideByZero);
    }
    var n := |processes|;
    var framesPerProcess := KotlinDiv(frameCount, n);
    var ps := AddToEach(processes, framesPerProcess);
    var framesLeft := frameCount - framesPerProcess * n;
    if framesLeft > 0 {
      assert framesLeft < n by { EqualShareLaw(frameCount, n, 0); }
      ps := HandOutRemainder(processes, framesPerProcess, framesLeft, ps);
      SharesAfterLoops(processes, frameCount, ps, framesLeft);
    } else {
      SharesAfterLoops(processes, frameCount, ps, 0);
    }
    return Success(ps);
  }

  /** Line 4: every process receives `frames` more frames. */
  method AddToEach(processes: seq<Process>, frames: int) returns (ps: seq<Process>)
    ensures |ps| == |processes|
    ensures forall j :: 0 <= j < |ps| ==> ps[j] == AddFrameCapacity(processes[j], frames)
  {
    ps := processes;
    var i := 0;
    while i < |ps|
      invariant 0 <= i <= |ps| && |ps| == |processes|
      invariant forall j :: 0 <= j < i ==> ps[j] == AddFrameCapacity(processes[j], frames)
      invariant forall j :: i <= j < |ps| ==> ps[j] == processes[j]
    {
      ps := ps[i := AddFrameCapacity(ps[i], frames)];
      i := i + 1;
    }
  }

  /**
   * Lines 7-12: walk the processes giving each one more frame until the
   * `extra` remaining frames are used up, then `break`.
   */
  method HandOutRemainder(processes: seq<Process>, share: int, extra: int, shared: seq<Process>)
    returns (ps: seq<Process>)
    requires 0 < extra <= |processes| == |shared|
    requires forall t :: 0 <= t < |shared| ==> shared[t] == AddFrameCapacity(processes[t], share)
    ensures |ps| == |processes|
    ensures forall t :: 0 <= t < extra ==> ps[t] == AddFrameCapacity(processes[t], share + 1)
    ensures forall t :: extra <= t < |ps| ==> ps[t] == AddFrameCapacity(processes[t], share)
  {
    ps := shared;
    var framesLeft := extra;
    var j := 0;
    while j < |ps|
      invariant 0 <= j < extra && framesLeft == extra - j
      invariant |ps| == |processes|
      invariant forall t :: 0 <= t < j ==> ps[t] == AddFrameCapacity(processes[t], share + 1)
      invariant forall t :: j <= t < |ps| ==> ps[t] == AddFrameCapacity(processes[t], share)
    {
      assert AddFrameCapacity(AddFrameCapacity(processes[j], share), 1) == AddFrameCapacity(processes[j], share + 1);
      ps := ps[j := AddFrameCapacity(ps[j], 1)];
      framesLeft := framesLeft - 1;
      if framesLeft == 0 {
        break;
      }
      j := j + 1;
    }
  }

  /**
   * The state the two loops of lines 3-13 leave: the first `cut` processes
   * hold one frame over the truncated share, where `cut` is the remainder
   * when it is positive and 0 otherwise.
   */
  lemma SharesAfterLoops(processes: seq<Process>, frameCount: int, ps: seq<Process>, cut: int)
    requires |processes| > 0 && |ps| == |processes| && 0 <= cut
    requires var extra := frameCount - KotlinDiv(frameCount, |processes|) * |processes|;
             cut == extra || (cut == 0 && extra <= 0)
    requires forall t :: 0 <= t < cut && t < |ps| ==>
               ps[t] == AddFrameCapacity(processes[t], KotlinDiv(frameCount, |processes|) + 1)
    requires forall t :: cut <= t < |ps| ==>
               ps[t] == AddFrameCapacity(processes[t], KotlinDiv(frameCount, |processes|))
    ensures ps == WithEqualShares(processes, frameCount)
  {
    var qs := WithEqualShares(processes, frameCount);
    forall t | 0 <= t < |ps| ensures ps[t] == qs[t] {
      if t < cut {
        assert ps[t] == AddFrameCapacity(processes[t], KotlinDiv(frameCount, |processes|) + 1);
      } else {
        assert ps[t] == AddFrameCapacity(processes[t], KotlinDiv(frameCount, |processes|));
      }
    }
  }

  // ---------------------------------------------------------------------------
  // Routing and the fault/eviction step
  // ---------------------------------------------------------------------------

  /**
   * `findProcess`: the index of the first process owning `page`; `None`
   * where `first { … }` throws.
   */
  function FindProcess(ps: seq<Process>, page: int): (r: Option<nat>)
    ensures r.Some? ==>
              && r.value < |ps|
              && HasPage(ps[r.value], page)
              && forall j :: 0 <= j < r.value ==> !HasPage(ps[j], page)
    ensures r.None? <==> forall j :: 0 <= j < |ps| ==> !HasPage(ps[j], page)
    decreases |ps|
  {
    if |ps| == 0 then None
    else if HasPage(ps[0], page) then Some(0)
    else match FindProcess(ps[1..], page)
      case None => None
      case Some(k) => Some(k + 1)
  }

  predicate Owned(ps: seq<Process>, page: int) {
    FindProcess(ps, page).Some?
  }

  /** Every reference of `refs` has an owner among `ps`. */
  predicate AllOwned(ps: seq<Process>, refs: seq<int>) {
    forall j :: 0 <= j < |refs| ==> Owned(ps, refs[j])
  }

  lemma AllOwnedSplit(ps: seq<Process>, refs: seq<int>)
    requires |refs| > 0
    ensures AllOwned(ps, refs) <==> AllOwned(ps, refs[..|refs| - 1]) && Owned(ps, refs[|refs| - 1])
  {
    var prefix := refs[..|refs| - 1];
    if AllOwned(ps, prefix) && Owned(ps, refs[|refs| - 1]) {
      forall j | 0 <= j < |refs| ensures Owned(ps, refs[j]) {
        if j < |refs| - 1 {
          assert refs[j] == prefix[j];
        }
      }
    }
  }

  /** Two process lists with the same page ranges, position by position. */
  predicate SameRanges(ps: seq<Process>, qs: seq<Process>) {
    && |ps| == |qs|
    && forall k :: 0 <= k < |ps| ==> ps[k].firstPage == qs[k].firstPage && ps[k].lastPage == qs[k].lastPage
  }

  /** Routing looks at page ranges only. */
  lemma FindProcessSeesRangesOnly(ps: seq<Process>, qs: seq<Process>, page: int)
    requires SameRanges(ps, qs)
    ensures FindProcess(ps, page) == FindProcess(qs, page)
  {
    var a, b := FindProcess(ps, page), FindProcess(qs, page);
    if a.Some? && b.Some? {
      assert !(a.value < b.value) && !(b.value < a.value);
    }
  }

  /** `q` is `p` with possibly a different resident set and fault count. */
  predicate SameExceptResidency(p: Process, q: Process) {
    && q.firstPage == p.firstPage && q.lastPage == p.lastPage
    && q.locality == p.locality && q.frameCapacity == p.frameCapacity
  }

  /**
   * Lines 17-24, one reference `page` at trace position `index` against its
   * owning process. A resident page is a hit: only its last-use time moves.
   * Otherwise it is a fault: the least recently used page goes first if the
   * resident set is full, the fault count goes up by one, and the page comes
   * in stamped with `index`.
   */
  function Access(p: Process, page: int, index: int): (r: Process)
    ensures SameExceptResidency(p, r)
    ensures page in r.frameMap && r.frameMap[page] == index
    ensures forall k | k in r.frameMap && k != page :: k in p.frameMap && r.frameMap[k] == p.frameMap[k]
    ensures HasReference(p, page) ==>
              r.pageFaultCount == p.pageFaultCount && r.frameMap.Keys == p.frameMap.Keys
    ensures !HasReference(p, page) ==> r.pageFaultCount == p.pageFaultCount + 1
    ensures !HasReference(p, page) && !IsFrameMapFull(p) ==>
              r.frameMap.Keys == p.frameMap.Keys + {page}
    ensures !HasReference(p, page) && IsFrameMapFull(p) && p.frameMap != map[] ==>
              exists v :: IsLeastRecentlyUsed(p.frameMap, v) && r.frameMap.Keys == p.frameMap.Keys - {v} + {page}
    ensures !HasReference(p, page) && IsFrameMapFull(p) && p.frameMap == map[] ==>
              r.frameMap.Keys == {page}
    ensures |r.frameMap| ==
              if HasReference(p, page) || (IsFrameMapFull(p) && p.frameMap != map[]) then |p.frameMap|
              else |p.frameMap| + 1
  {
    var faulted :=
      if !HasReference(p, page) then
        IncrementFaultCount(if IsFrameMapFull(p) then RemoveLeastRecentlyUsedReference(p) else p)
      else p;
    AddReference(faulted, page, index)
  }

  /**
   * With no frames, "full" holds only while the resident set is empty, so
   * after the first fault nothing is ever evicted and the set outgrows its
   * capacity.
   */
  lemma ZeroCapacityOverflows(p: Process, a: int, b: int)
    requires p.frameCapacity == 0 && p.frameMap == map[] && a != b
    ensures |Access(Access(p, a, 0), b, 1).frameMap| == 2 > Access(Access(p, a, 0), b, 1).frameCapacity
  {
    var q := Access(p, a, 0);
    assert q.frameMap.Keys == {a};
  }

  // ---------------------------------------------------------------------------
  // Replaying the trace
  // ---------------------------------------------------------------------------

  /**
   * Lines 15-25: the processes after the references in `refs`, each at its
   * own trace position, went through the fault/eviction step of its owner.
   * The first reference no process owns ends the replay with an error.
   */
  function Run(ps: seq<Process>, refs: seq<int>): (r: Result<seq<Process>>)
    ensures r.Success? ==> |r.value| == |ps|
    decreases |refs|
  {
    if |refs| == 0 then Success(ps)
    else
      var last := |refs| - 1;
      match Run(ps, refs[..last])
      case Failure(e) => Failure(e)
      case Success(qs) =>
        match FindProcess(qs, refs[last])
        case None => Failure(NoProcessForPage(refs[last]))
        case Some(k) => Success(qs[k := Access(qs[k], refs[last], last)])
  }

  /**
   * The replay touches only resident sets and fault counts: page ranges,
   * capacities and locality state come out as they went in.
   */
  lemma {:induction false} RunKeepsIdentity(ps: seq<Process>, refs: seq<int>)
    ensures Run(ps, refs).Success? ==>
              && SameRanges(ps, Run(ps, refs).value)
              && forall k :: 0 <= k < |ps| ==> SameExceptResidency(ps[k], Run(ps, refs).value[k])
    decreases |refs|
  {
    if |refs| > 0 && Run(ps, refs).Success? {
      var last := |refs| - 1;
      RunKeepsIdentity(ps, refs[..last]);
      var qs := Run(ps, refs[..last]).value;
      var k0 := FindProcess(qs, refs[last]).value;
      var rs := Run(ps, refs).value;
      assert rs == qs[k0 := Access(qs[k0], refs[last], last)];
      forall k | 0 <= k < |ps| ensures SameExceptResidency(ps[k], rs[k]) {
        assert SameExceptResidency(ps[k], qs[k]);
      }
    }
  }

  /** One more reference: the replay so far, then the step of its owner. */
  lemma RunStep(ps: seq<Process>, refs: seq<int>)
    requires |refs| > 0
    ensures var last := |refs| - 1;
            Run(ps, refs) ==
              if Run(ps, refs[..last]).Failure? then Run(ps, refs[..last])
              else if !Owned(ps, refs[last]) then Failure(NoProcessForPage(refs[last]))
              else
                var qs := Run(ps, refs[..last]).value;
                var k := FindProcess(ps, refs[last]).value;
                Success(qs[k := Access(qs[k], refs[last], last)])
  {
    var last := |refs| - 1;
    RunKeepsIdentity(ps, refs[..last]);
    if Run(ps, refs[..last]).Success? {
      FindProcessSeesRangesOnly(ps, Run(ps, refs[..last]).value, refs[last]);
    }
  }

  lemma RunStepSucceeds(ps: seq<Process>, refs: seq<int>)
    requires |refs| > 0
    ensures Run(ps, refs).Success? <==>
              Run(ps, refs[..|refs| - 1]).Success? && Owned(ps, refs[|refs| - 1])
  {
    var last := |refs| - 1;
    RunKeepsIdentity(ps, refs[..last]);
    if Run(ps, refs[..last]).Success? {
      FindProcessSeesRangesOnly(ps, Run(ps, refs[..last]).value, refs[last]);
    }
  }

  /**
   * The replay gets through the whole trace exactly when every reference
   * has an owner.
   */
  lemma {:induction false} RunSucceedsIffAllOwned(ps: seq<Process>, refs: seq<int>)
    ensures Run(ps, refs).Success? <==> AllOwned(ps, refs)
    decreases |refs|
  {
    if |refs| > 0 {
      var last := |refs| - 1;
      var prefix := refs[..last];
      RunSucceedsIffAllOwned(ps, prefix);
      RunStepSucceeds(ps, refs);
      AllOwnedSplit(ps, refs);
    }
  }

  /** Once a prefix of the trace fails, the whole replay fails the same way. */
  lemma {:induction false} RunFailurePersists(ps: seq<Process>, refs: seq<int>, i: nat)
    requires i <= |refs| && Run(ps, refs[..i]).Failure?
    ensures Run(ps, refs) == Run(ps, refs[..i])
    decreases |refs| - i
  {
    if i < |refs| {
      var longer := refs[..i + 1];
      assert longer[..i] == refs[..i];
      RunStep(ps, longer);
      RunFailurePersists(ps, refs, i + 1);
    } else {
      assert refs[..i] == refs;
    }
  }

  /**
   * `first { }` throws on the first reference without an owner, so that
   * reference's page is the error the replay ends with.
   */
  lemma RunFailsOnFirstUnowned(ps: seq<Process>, refs: seq<int>, i: int)
    requires 0 <= i < |refs| && !Owned(ps, refs[i])
    requires forall j :: 0 <= j < i ==> Owned(ps, refs[j])
    ensures Run(ps, refs) == Failure(NoProcessForPage(refs[i]))
  {
    var prefix := refs[..i];
    RunSucceedsIffAllOwned(ps, prefix);
    assert Run(ps, prefix).Success?;
    var longer := refs[..i + 1];
    assert longer[..i] == prefix;
    RunStep(ps, longer);
    RunFailurePersists(ps, refs, i + 1);
  }

  /** How many references of `refs` are routed to process `k`. */
  function Routed(ps: seq<Process>, refs: seq<int>, k: int): nat
    decreases |refs|
  {
    if |refs| == 0 then 0
    else Routed(ps, refs[..|refs| - 1], k) + if FindProcess(ps, refs[|refs| - 1]) == Some(k) then 1 else 0
  }

  /**
   * Fault counts never go down, and each process faults at most once per
   * reference routed to it.
   */
  lemma {:induction false} RunFaultBounds(ps: seq<Process>, refs: seq<int>, k: int)
    requires Run(ps, refs).Success? && 0 <= k < |ps|
    ensures ps[k].pageFaultCount <= Run(ps, refs).value[k].pageFaultCount
    ensures Run(ps, refs).value[k].pageFaultCount <= ps[k].pageFaultCount + Routed(ps, refs, k)
    decreases |refs|
  {
    if |refs| > 0 {
      var last := |refs| - 1;
      var qs := Run(ps, refs[..last]).value;
      RunFaultBounds(ps, refs[..last], k);
      RunStep(ps, refs);
    }
  }

  /** The resident set of a process with at least one frame fits in its frames. */
  predicate WithinCapacity(p: Process) {
    p.frameCapacity >= 1 ==> |p.frameMap| <= p.frameCapacity
  }

  /**
   * A process with at least one frame never holds more resident pages than
   * it has frames, at any point of the replay.
   */
  lemma {:induction false} RunRespectsCapacity(ps: seq<Process>, refs: seq<int>)
    requires forall k :: 0 <= k < |ps| ==> WithinCapacity(ps[k])
    ensures Run(ps, refs).Success? ==>
              forall k :: 0 <= k < |ps| ==> WithinCapacity(Run(ps, refs).value[k])
    decreases |refs|
  {
    if |refs| > 0 {
      RunRespectsCapacity(ps, refs[..|refs| - 1]);
    }
  }

  /** Every last-use time in `m` is earlier than `t`. */
  ghost predicate StampsBelow(m: map<int, int>, t: int) {
    forall k | k in m :: m[k] < t
  }

  /** One step stamps the page with `t` and keeps the other stamps. */
  lemma AccessKeepsStampsDistinct(p: Process, page: int, t: int)
    requires Injective(p.frameMap) && StampsBelow(p.frameMap, t)
    ensures Injective(Access(p, page, t).frameMap) && StampsBelow(Access(p, page, t).frameMap, t + 1)
  {
    var m := Access(p, page, t).frameMap;
    forall a, b | a in m && b in m && a != b ensures m[a] != m[b] {
      if a != page && b != page {
        assert m[a] == p.frameMap[a] && m[b] == p.frameMap[b];
      }
    }
  }

  /**
   * Timestamps are trace positions, so within each process no two resident
   * pages share a last-use time; hence the LRU victim is always unique.
   */
  lemma {:induction false} RunKeepsStampsDistinct(ps: seq<Process>, refs: seq<int>)
    requires forall k :: 0 <= k < |ps| ==> Injective(ps[k].frameMap) && StampsBelow(ps[k].frameMap, 0)
    ensures Run(ps, refs).Success? ==>
              forall k :: 0 <= k < |ps| ==>
                Injective(Run(ps, refs).value[k].frameMap) && StampsBelow(Run(ps, refs).value[k].frameMap, |refs|)
    decreases |refs|
  {
    if |refs| > 0 && Run(ps, refs).Success? {
      var last := |refs| - 1;
      RunKeepsStampsDistinct(ps, refs[..last]);
      RunStep(ps, refs);
      var qs := Run(ps, refs[..last]).value;
      var k0 := FindProcess(ps, refs[last]).value;
      AccessKeepsStampsDistinct(qs[k0], refs[last], last);
      var rs := Run(ps, refs).value;
      forall k | 0 <= k < |ps|
        ensures Injective(rs[k].frameMap) && StampsBelow(rs[k].frameMap, |refs|)
      {
        if k != k0 {
          assert rs[k] == qs[k];
        }
      }
    }
  }

  // ---------------------------------------------------------------------------
  // The policy
  // ---------------------------------------------------------------------------

  /** The fault counts in process order, and the processes as left for the next run. */
  datatype Outcome = Outcome(faultCounts: seq<int>, processes: seq<Process>)

  /**
   * Lines 15-25 as a loop: each reference, at its trace position, goes to
   * the fault/eviction step of the process owning it.
   */
  method Replay(processes: seq<Process>, references: seq<int>) returns (r: Result<seq<Process>>)
    ensures r == Run(processes, references)
  {
    var ps := processes;
    var index := 0;
    while index < |references|
      invariant 0 <= index <= |references|
      invariant Run(processes, references[..index]) == Success(ps)
    {
      var prefix := references[..index + 1];
      assert prefix[..index] == references[..index];
      RunStep(processes, prefix);
      RunKeepsIdentity(processes, references[..index]);
      FindProcessSeesRangesOnly(processes, ps, references[index]);
      var owner := FindProcess(ps, references[index]);
      if owner.None? {
        RunFailurePersists(processes, references, index + 1);
        return Failure(NoProcessForPage(references[index]));
      }
      var k := owner.value;
      ps := ps[k := Access(ps[k], references[index], index)];
      index := index + 1;
    }
    assert references[..index] == references;
    return Success(ps);
  }

  /**
   * `equalDistribution`: split the budget, replay the trace, collect the
   * fault counts in process order and reset the processes.
   */
  method EqualDistribution(processes: seq<Process>, references: seq<int>, frameCount: int)
    returns (r: Result<Outcome>)
    ensures |processes| == 0 ==> r == Failure(DivideByZero)
    ensures |processes| > 0 ==>
              (r.Success? <==> forall j :: 0 <= j < |references| ==> Owned(processes, references[j]))
    ensures |processes| > 0 && r.Failure? ==> Run(WithEqualShares(processes, frameCount), references) == Failure(r.error)
    ensures r.Success? ==>
              && Run(WithEqualShares(processes, frameCount), references).Success?
              && |r.value.faultCounts| == |processes|
              && (forall k :: 0 <= k < |processes| ==>
                    r.value.faultCounts[k] == Run(WithEqualShares(processes, frameCount), references).value[k].pageFaultCount)
              && (forall k :: 0 <= k < |processes| ==>
                    processes[k].pageFaultCount <= r.value.faultCounts[k]
                                                <= processes[k].pageFaultCount + Routed(processes, references, k))
              && |r.value.processes| == |processes|
              && (forall k :: 0 <= k < |processes| ==> r.value.processes[k] == Reset(processes[k]))
  {
    var distributed :- DistributeEqually(processes, frameCount);
    assert SameRanges(processes, distributed);
    RunSucceedsIffAllOwned(distributed, references);
    ReplayOverSplit(processes, distributed, references);
    var ps :- Replay(distributed, references);
    RunKeepsIdentity(distributed, references);
    var faultCounts := seq(|ps|, k requires 0 <= k < |ps| => ps[k].pageFaultCount);
    var resets := seq(|ps|, k requires 0 <= k < |ps| => Reset(ps[k]));
    forall k | 0 <= k < |processes|
      ensures processes[k].pageFaultCount <= faultCounts[k] <= processes[k].pageFaultCount + Routed(processes, references, k)
    {
      RunFaultBounds(distributed, references, k);
      RoutedSeesRangesOnly(distributed, processes, references, k);
    }
    return Success(Outcome(faultCounts, resets));
  }

  /**
   * The split keeps the ranges, so a reference has an owner among the split
   * processes exactly when it has one among the originals, and the replay
   * over the split stops at the first reference that has none.
   */
  lemma ReplayOverSplit(processes: seq<Process>, distributed: seq<Process>, references: seq<int>)
    requires SameRanges(processes, distributed)
    ensures forall j :: 0 <= j < |references| ==>
              Owned(processes, references[j]) == Owned(distributed, references[j])
    ensures forall i :: 0 <= i < |references| && !Owned(processes, references[i]) &&
                        (forall j :: 0 <= j < i ==> Owned(processes, references[j])) ==>
              Run(distributed, references) == Failure(NoProcessForPage(references[i]))
  {
    forall j | 0 <= j < |references| ensures Owned(processes, references[j]) == Owned(distributed, references[j]) {
      FindProcessSeesRangesOnly(processes, distributed, references[j]);
    }
    forall i | 0 <= i < |references| && !Owned(processes, references[i]) &&
               (forall j :: 0 <= j < i ==> Owned(processes, references[j]))
      ensures Run(distributed, references) == Failure(NoProcessForPage(references[i]))
    {
      RunFailsOnFirstUnowned(distributed, references, i);
    }
  }

  lemma {:induction false} RoutedSeesRangesOnly(ps: seq<Process>, qs: seq<Process>, refs: seq<int>, k: int)
    requires SameRanges(ps, qs)
    ensures Routed(ps, refs, k) == Routed(qs, refs, k)
    decreases |refs|
  {
    if |refs| > 0 {
      RoutedSeesRangesOnly(ps, qs, refs[..|refs| - 1], k);
      FindProcessSeesRangesOnly(ps, qs, refs[|refs| - 1]);
    }
  }

  /**
   * From freshly reset processes and a budget of at least one frame per
   * process, the resident sets stay within their equal shares throughout.
   */
  lemma EqualSharesBoundResidentSets(ps: seq<Process>, refs: seq<int>, frameCount: int)
    requires |ps| > 0 && frameCount >= |ps|
    requires forall k :: 0 <= k < |ps| ==> ps[k].frameMap == map[] && ps[k].frameCapacity == 0
    ensures Run(WithEqualShares(ps, frameCount), refs).Success? ==>
              forall k :: 0 <= k < |ps| ==>
                |Run(WithEqualShares(ps, frameCount), refs).value[k].frameMap|
                  <= EqualShare(frameCount, |ps|, k)
  {
    var shared := WithEqualShares(ps, frameCount);
    EveryShareAtLeastOneIff(frameCount, |ps|);
    RunRespectsCapacity(shared, refs);
    RunKeepsIdentity(shared, refs);
  }

  /** Appending one reference to the trace runs one more step. */
  lemma RunAppend(ps: seq<Process>, refs: seq<int>, page: int)
    ensures Run(ps, refs + [page]) ==
              if Run(ps, refs).Failure? then Run(ps, refs)
              else if !Owned(ps, page) then Failure(NoProcessForPage(page))
              else
                var qs := Run(ps, refs).value;
                var k := FindProcess(ps, page).value;
                Success(qs[k := Access(qs[k], page, |refs|)])
  {
    var longer := refs + [page];
    assert longer[..|refs|] == refs;
    RunStep(ps, longer);
  }

  // ---------------------------------------------------------------------------
  // Worked example: pages 0..4 and 5..9, four frames, trace 0 0 1 2 3 5 5 6 7 8
  //
  // The lemmas below take the trace one reference at a time. Each `Access*`
  // lemma is one case of the fault/eviction step on a concrete resident set,
  // each `Example*` step lemma applies it to the example's processes, and
  // `WorkedEqualDistribution` states the result of the policy itself.
  // ---------------------------------------------------------------------------

  /** The two processes of the example, before the equal split. */
  function ExampleProcesses(): seq<Process> {
    [NewProcess(0, 4, 0, 1, 1, 2, 1, 1), NewProcess(5, 9, 0, 1, 1, 2, 1, 1)]
  }

  /** Four frames over the example's two processes: two frames each, nothing resident yet. */
  lemma ExampleShares(processes: seq<Process>)
    requires processes == ExampleProcesses()
    ensures var shared := WithEqualShares(processes, 4);
            && |shared| == 2
            && shared[0].firstPage == 0 && shared[0].lastPage == 4
            && shared[1].firstPage == 5 && shared[1].lastPage == 9
            && forall k :: 0 <= k < 2 ==>
                 shared[k].frameCapacity == 2 && shared[k].frameMap == map[] && shared[k].pageFaultCount == 0
  {
    assert EqualShare(4, 2, 0) == 2 && EqualShare(4, 2, 1) == 2;
  }

  /** With ranges 0..4 and 5..9, each page goes to the process whose range holds it. */
  lemma TwoProcessRouting(shared: seq<Process>)
    requires |shared| == 2
    requires shared[0].firstPage == 0 && shared[0].lastPage == 4
    requires shared[1].firstPage == 5 && shared[1].lastPage == 9
    ensures forall page :: 0 <= page <= 4 ==> FindProcess(shared, page) == Some(0)
    ensures forall page :: 5 <= page <= 9 ==> FindProcess(shared, page) == Some(1)
  {
  }

  /** One more reference routed to a known owner. */
  lemma RunAppendOwned(ps: seq<Process>, refs: seq<int>, page: int, k: nat, qs: seq<Process>)
    requires Run(ps, refs) == Success(qs) && FindProcess(ps, page) == Some(k)
    ensures k < |qs| && Run(ps, refs + [page]) == Success(qs[k := Access(qs[k], page, |refs|)])
  {
    RunAppend(ps, refs, page);
  }

  /**
   * Process `k` of `rs` holds exactly `m`, has two frames and `faults`
   * faults; every other process is as in `qs`.
   */
  ghost predicate ExampleState(rs: seq<Process>, qs: seq<Process>, k: nat, m: map<int, int>, faults: int) {
    && |rs| == |qs| && k < |rs|
    && rs[k].frameMap == m && rs[k].frameCapacity == 2 && rs[k].pageFaultCount == faults
    && forall j :: 0 <= j < |qs| && j != k ==> rs[j] == qs[j]
  }

  /** One more reference of the example moves process `k` to the result of `Access`. */
  lemma ExampleStep(ps: seq<Process>, refs: seq<int>, rs: seq<Process>, qs: seq<Process>, k: nat,
                    m: map<int, int>, faults: int, page: int)
    requires Run(ps, refs) == Success(rs) && ExampleState(rs, qs, k, m, faults)
    requires FindProcess(ps, page) == Some(k)
    ensures Run(ps, refs + [page]).Success?
    ensures var a := Access(rs[k], page, |refs|);
            ExampleState(Run(ps, refs + [page]).value, qs, k, a.frameMap, a.pageFaultCount)
  {
    var a := Access(rs[k], page, |refs|);
    ExampleStateUpdate(rs, qs, k, m, faults, a);
    RunAppendOwned(ps, refs, page, k, rs);
  }

  /** Replacing process `k` by a state with two frames keeps the example's shape. */
  lemma ExampleStateUpdate(rs: seq<Process>, qs: seq<Process>, k: nat, m: map<int, int>, faults: int, a: Process)
    requires ExampleState(rs, qs, k, m, faults) && a.frameCapacity == 2
    ensures ExampleState(rs[k := a], qs, k, a.frameMap, a.pageFaultCount)
  {
  }

  /** A first fault into two empty frames. */
  lemma AccessIntoEmpty(p: Process, page: int, t: int)
    requires p.frameMap == map[] && p.frameCapacity == 2
    ensures Access(p, page, t).frameMap == map[page := t]
    ensures Access(p, page, t).pageFaultCount == p.pageFaultCount + 1
  {
  }

  /** A hit on the only resident page only refreshes its last use. */
  lemma AccessHit(p: Process, page: int, t: int, before: int)
    requires p.frameMap == map[page := before]
    ensures Access(p, page, t).frameMap == map[page := t]
    ensures Access(p, page, t).pageFaultCount == p.pageFaultCount
  {
  }

  /** A fault with one of two frames in use fills the second frame. */
  lemma AccessFill(p: Process, page: int, t: int, resident: int, stamp: int)
    requires p.frameMap == map[resident := stamp] && page != resident && p.frameCapacity == 2
    ensures Access(p, page, t).frameMap == map[resident := stamp, page := t]
    ensures Access(p, page, t).pageFaultCount == p.pageFaultCount + 1
  {
  }

  /** A fault with both frames in use evicts the page used longer ago. */
  lemma AccessEvict(p: Process, page: int, t: int, older: int, a: int, newer: int, b: int)
    requires p.frameMap == map[older := a, newer := b] && older != newer && page != older && page != newer
    requires a < b && p.frameCapacity == 2
    ensures Access(p, page, t).frameMap == map[newer := b, page := t]
    ensures Access(p, page, t).pageFaultCount == p.pageFaultCount + 1
  {
    assert |p.frameMap| == 2 by {
      assert p.frameMap.Keys == {older, newer};
    }
    var v := LeastRecentlyUsed(p.frameMap);
    assert p.frameMap[older] == a && p.frameMap[newer] == b;
    assert v in p.frameMap && p.frameMap[v] <= p.frameMap[older];
    assert v == older;
  }

  /** The example's first reference to a process: a fault into empty frames. */
  lemma ExampleFirstFault(ps: seq<Process>, refs: seq<int>, rs: seq<Process>, qs: seq<Process>, k: nat,
                          c: int, page: int)
    requires Run(ps, refs) == Success(rs) && ExampleState(rs, qs, k, map[], c)
    requires FindProcess(ps, page) == Some(k)
    ensures Run(ps, refs + [page]).Success?
    ensures ExampleState(Run(ps, refs + [page]).value, qs, k, map[page := |refs|], c + 1)
  {
    ExampleStep(ps, refs, rs, qs, k, map[], c, page);
    AccessIntoEmpty(rs[k], page, |refs|);
  }

  /** The example's hit on the one resident page. */
  lemma ExampleHit(ps: seq<Process>, refs: seq<int>, rs: seq<Process>, qs: seq<Process>, k: nat,
                   c: int, page: int, before: int)
    requires Run(ps, refs) == Success(rs) && ExampleState(rs, qs, k, map[page := before], c)
    requires FindProcess(ps, page) == Some(k)
    ensures Run(ps, refs + [page]).Success?
    ensures ExampleState(Run(ps, refs + [page]).value, qs, k, map[page := |refs|], c)
  {
    ExampleStep(ps, refs, rs, qs, k, map[page := before], c, page);
    AccessHit(rs[k], page, |refs|, before);
  }

  /** The example's fault into the second frame. */
  lemma ExampleFill(ps: seq<Process>, refs: seq<int>, rs: seq<Process>, qs: seq<Process>, k: nat,
                    c: int, page: int, resident: int, stamp: int)
    requires Run(ps, refs) == Success(rs) && ExampleState(rs, qs, k, map[resident := stamp], c)
    requires FindProcess(ps, page) == Some(k) && page != resident
    ensures Run(ps, refs + [page]).Success?
    ensures ExampleState(Run(ps, refs + [page]).value, qs, k, map[resident := stamp, page := |refs|], c + 1)
  {
    ExampleStep(ps, refs, rs, qs, k, map[resident := stamp], c, page);
    AccessFill(rs[k], page, |refs|, resident, stamp);
  }

  /** The example's fault with both frames full, evicting the older page. */
  lemma ExampleEvict(ps: seq<Process>, refs: seq<int>, rs: seq<Process>, qs: seq<Process>, k: nat,
                     c: int, page: int, older: int, a: int, newer: int, b: int)
    requires Run(ps, refs) == Success(rs) && ExampleState(rs, qs, k, map[older := a, newer := b], c)
    requires FindProcess(ps, page) == Some(k)
    requires older != newer && page != older && page != newer && a < b
    ensures Run(ps, refs + [page]).Success?
    ensures ExampleState(Run(ps, refs + [page]).value, qs, k, map[newer := b, page := |refs|], c + 1)
  {
    ExampleStep(ps, refs, rs, qs, k, map[older := a, newer := b], c, page);
    AccessEvict(rs[k], page, |refs|, older, a, newer, b);
  }

  /**
   * Five references `x x y z w` (distinct pages) to a process of two empty
   * frames: fault, hit, fault, evicting fault, evicting fault.
   */
  lemma ExampleBurst(ps: seq<Process>, refs: seq<int>, qs: seq<Process>, k: nat, x: int, y: int, z: int, w: int)
    requires Run(ps, refs) == Success(qs) && k < |qs|
    requires qs[k].frameCapacity == 2 && qs[k].frameMap == map[]
    requires FindProcess(ps, x) == Some(k) && FindProcess(ps, y) == Some(k)
    requires FindProcess(ps, z) == Some(k) && FindProcess(ps, w) == Some(k)
    requires x != y && x != z && x != w && y != z && y != w && z != w
    ensures var run := Run(ps, refs + [x, x, y, z, w]);
            && run.Success? && |run.value| == |qs|
            && run.value[k].pageFaultCount == qs[k].pageFaultCount + 4
            && forall j :: 0 <= j < |qs| && j != k ==> run.value[j] == qs[j]
  {
    var t := |refs|;
    var c := qs[k].pageFaultCount;
    var r1 := refs + [x];
    var r2 := r1 + [x];
    var r3 := r2 + [y];
    var r4 := r3 + [z];
    ExampleFirstFault(ps, refs, qs, qs, k, c, x);
    ExampleHit(ps, r1, Run(ps, r1).value, qs, k, c + 1, x, t);
    ExampleFill(ps, r2, Run(ps, r2).value, qs, k, c + 1, y, x, t + 1);
    ExampleEvict(ps, r3, Run(ps, r3).value, qs, k, c + 2, z, x, t + 1, y, t + 2);
    ExampleEvict(ps, r4, Run(ps, r4).value, qs, k, c + 3, w, y, t + 2, z, t + 3);
    AppendFive(refs, x, y, z, w);
  }

  /** Five single appends make the trace `x x y z w`. */
  lemma AppendFive(refs: seq<int>, x: int, y: int, z: int, w: int)
    ensures refs + [x] + [x] + [y] + [z] + [w] == refs + [x, x, y, z, w]
  {
  }

  /** Two processes of two empty frames each, one owning pages 0..4 and the other 5..9. */
  ghost predicate ExampleStart(shared: seq<Process>) {
    && |shared| == 2
    && (forall k :: 0 <= k < 2 ==>
          shared[k].frameCapacity == 2 && shared[k].frameMap == map[] && shared[k].pageFaultCount == 0)
    && (forall page :: 0 <= page <= 4 ==> FindProcess(shared, page) == Some(0))
    && (forall page :: 5 <= page <= 9 ==> FindProcess(shared, page) == Some(1))
  }

  /** The first half of the example trace, 0 0 1 2 3, faults four times in the first process. */
  lemma ExampleFirstHalf(shared: seq<Process>, empty: seq<int>, first: seq<int>)
    requires ExampleStart(shared) && |empty| == 0 && first == empty + [0, 0, 1, 2, 3]
    ensures var run := Run(shared, first);
            && run.Success? && |run.value| == 2
            && run.value[0].pageFaultCount == 4 && run.value[1] == shared[1]
  {
    assert Run(shared, empty) == Success(shared);
    ExampleBurst(shared, empty, shared, 0, 0, 1, 2, 3);
  }

  /** The second half, 5 5 6 7 8, faults four times in the second process. */
  lemma ExampleSecondHalf(shared: seq<Process>, first: seq<int>, half: seq<Process>, second: seq<int>)
    requires ExampleStart(shared) && Run(shared, first) == Success(half)
    requires |half| == 2 && half[1] == shared[1]
    requires second == [5, 5, 6, 7, 8]
    ensures var run := Run(shared, first + second);
            && run.Success? && |run.value| == 2
            && run.value[0] == half[0] && run.value[1].pageFaultCount == 4
  {
    ExampleBurst(shared, first, half, 1, 5, 6, 7, 8);
  }

  /** The whole example trace, 0 0 1 2 3 5 5 6 7 8, four faults in each process. */
  lemma ExampleReplay(shared: seq<Process>, empty: seq<int>, first: seq<int>, second: seq<int>)
    requires ExampleStart(shared) && |empty| == 0
    requires first == empty + [0, 0, 1, 2, 3] && second == [5, 5, 6, 7, 8]
    ensures var run := Run(shared, first + second);
            && run.Success? && |run.value| == 2
            && run.value[0].pageFaultCount == 4 && run.value[1].pageFaultCount == 4
  {
    ExampleFirstHalf(shared, empty, first);
    ExampleSecondHalf(shared, first, Run(shared, first).value, second);
  }

  /** The example's processes after the split of four frames. */
  lemma ExampleStartHolds(processes: seq<Process>)
    requires processes == ExampleProcesses()
    ensures ExampleStart(WithEqualShares(processes, 4))
  {
    ExampleShares(processes);
    TwoProcessRouting(WithEqualShares(processes, 4));
  }

  /**
   * The two-process example: pages 0..4 and 5..9, four frames, trace
   * 0 0 1 2 3 followed by 5 5 6 7 8. Each process gets two frames and faults
   * four times.
   */
  lemma WorkedExample(processes: seq<Process>, first: seq<int>, second: seq<int>)
    requires processes == ExampleProcesses()
    requires first == [0, 0, 1, 2, 3] && second == [5, 5, 6, 7, 8]
    ensures var shared := WithEqualShares(processes, 4);
            var run := Run(shared, first + second);
            && shared[0].frameCapacity == 2 && shared[1].frameCapacity == 2
            && run.Success? && |run.value| == 2
            && run.value[0].pageFaultCount == 4 && run.value[1].pageFaultCount == 4
  {
    ExampleStartHolds(processes);
    var empty: seq<int> := [];
    assert first == empty + [0, 0, 1, 2, 3];
    ExampleReplay(WithEqualShares(processes, 4), empty, first, second);
  }

  /**
   * When the replay over the split processes goes through, `equalDistribution`
   * succeeds and reports that replay's fault counts.
   */
  method DistributeCleanTrace(processes: seq<Process>, frameCount: int, trace: seq<int>)
    returns (r: Result<Outcome>)
    requires |processes| > 0 && Run(WithEqualShares(processes, frameCount), trace).Success?
    ensures r.Success? && |r.value.faultCounts| == |processes|
    ensures forall k :: 0 <= k < |processes| ==>
              r.value.faultCounts[k] == Run(WithEqualShares(processes, frameCount), trace).value[k].pageFaultCount
  {
    var shared := WithEqualShares(processes, frameCount);
    RunSucceedsIffAllOwned(shared, trace);
    forall j | 0 <= j < |trace| ensures Owned(processes, trace[j]) {
      FindProcessSeesRangesOnly(processes, shared, trace[j]);
    }
    r := EqualDistribution(processes, trace, frameCount);
  }

  /** Two counts read off two processes that faulted four times each. */
  lemma FourAndFour(counts: seq<int>, ps: seq<Process>)
    requires |counts| == |ps| == 2 && ps[0].pageFaultCount == 4 && ps[1].pageFaultCount == 4
    requires forall k :: 0 <= k < 2 ==> counts[k] == ps[k].pageFaultCount
    ensures counts == [4, 4]
  {
  }

  /** `equalDistribution` on the worked example returns the fault counts 4 and 4. */
  method WorkedEqualDistribution(processes: seq<Process>, first: seq<int>, second: seq<int>)
    returns (r: Result<Outcome>)
    requires processes == ExampleProcesses()
    requires first == [0, 0, 1, 2, 3] && second == [5, 5, 6, 7, 8]
    ensures r.Success? && r.value.faultCounts == [4, 4]
  {
    WorkedExample(processes, first, second);
    r := DistributeCleanTrace(processes, 4, first + second);
    FourAndFour(r.value.faultCounts, Run(WithEqualShares(processes, 4), first + second).value);
  }
}
