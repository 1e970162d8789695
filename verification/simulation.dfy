/**
 * How the generated partition and the allocator fit together: processes
 * built over the ranges of `generateProcesses` route every page of
 * `0..pageCount` to the one process holding it, so a trace within those
 * pages never stops on an unowned page.
 */
module Simulation {
  import opened Results
  import opened ProcessState
  import opened FrameAllocation
  import opened Generator

  /** The processes have exactly the given page ranges, in order. */
  predicate HasRanges(ps: seq<Process>, ranges: seq<PageRange>) {
    && |ps| == |ranges|
    && forall k :: 0 <= k < |ps| ==> ps[k].firstPage == ranges[k].first && ps[k].lastPage == ranges[k].last
  }

  /**
   * Over a partition of `first..last`, a page has an owner exactly when it
   * lies in that interval, and the owner is the process whose range holds it.
   */
  lemma RoutingFollowsPartition(ps: seq<Process>, ranges: seq<PageRange>, first: int, last: int, page: int)
    requires Partitions(ranges, first, last) && HasRanges(ps, ranges)
    ensures Owned(ps, page) <==> first <= page <= last
    ensures Owned(ps, page) ==>
              ranges[FindProcess(ps, page).value].first <= page <= ranges[FindProcess(ps, page).value].last
  {
    PartitionWithin(ranges, first, last);
    if first <= page <= last {
      PartitionOwnsEachPage(ranges, first, last, page);
      var i :| 0 <= i < |ranges| && ranges[i].first <= page <= ranges[i].last;
      assert HasPage(ps[i], page);
    }
  }

  /**
   * With at least one process and a non-negative page count, a replay over
   * processes with the generated ranges succeeds exactly when every
   * reference lies in `0..pageCount`.
   */
  lemma GeneratedProcessesOwnTheirPages(howMany: int, pageCount: int, draws: seq<int>,
                                        ps: seq<Process>, refs: seq<int>)
    requires DrawsSuffice(howMany, pageCount, draws)
    requires howMany >= 1 && pageCount >= 0
    requires GenerateProcesses(howMany, pageCount, draws).Success?
    requires HasRanges(ps, GenerateProcesses(howMany, pageCount, draws).value)
    ensures Run(ps, refs).Success? <==> forall j :: 0 <= j < |refs| ==> 0 <= refs[j] <= pageCount
  {
    var ranges := GenerateProcesses(howMany, pageCount, draws).value;
    GeneratedRangesPartition(howMany, pageCount, draws);
    RunSucceedsIffAllOwned(ps, refs);
    forall j | 0 <= j < |refs| ensures Owned(ps, refs[j]) <==> 0 <= refs[j] <= pageCount {
      RoutingFollowsPartition(ps, ranges, 0, pageCount, refs[j]);
    }
  }
}
