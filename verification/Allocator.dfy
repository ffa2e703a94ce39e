/** The cluster allocator (extent-allocator.cpp). */
module Allocator {
  import opened Fat

  datatype Option<+T> = None | Some(value: T)

  /** The outcome of one probe of the volume; DiskFull is the program's exit(1). */
  datatype Probe = Usable | Unusable | DiskFull

  predicate BitAt(b: bv8, k: nat)
    requires k < 8
  {
    (b >> k) & 1 == 1
  }

  /** What the allocator is given: extents sorted, disjoint and starting inside the volume,
      closed by the one-cluster sentinel at its end. */
  ghost predicate WellFormedBlocked(blocked: seq<Extent>, clusterCount: nat) {
    && |blocked| > 0
    && blocked[|blocked| - 1] == Extent(0, 1, clusterCount)
    && (forall k :: 0 <= k < |blocked| - 1 ==>
          blocked[k].physicalStart < clusterCount && blocked[k].length <= 0xFFFF)
    && (forall j, k :: 0 <= j < k < |blocked| ==> blocked[j].End() <= blocked[k].physicalStart)
    && (forall j, k :: 0 <= j < k < |blocked| && blocked[k].length == 0 ==>
          blocked[j].End() < blocked[k].physicalStart || blocked[k].physicalStart == 0)
  }

  /** The cluster belongs to a block group header. */
  ghost predicate InBlocked(blocked: seq<Extent>, c: nat) {
    exists k :: 0 <= k < |blocked| && blocked[k].physicalStart <= c < blocked[k].End()
  }

  /** Clusters the bump pointer jumps over: a blocked extent and the cluster just after it. */
  ghost predicate Skipped(blocked: seq<Extent>, c: nat) {
    exists k :: 0 <= k < |blocked| && blocked[k].physicalStart <= c <= blocked[k].End()
  }

  /** The bump pointer stands between the blocked extents already passed and the next one. */
  ghost predicate AtBoundary(blocked: seq<Extent>, index: nat, current: nat)
    requires current <= |blocked|
  {
    && (forall k :: 0 <= k < current ==> blocked[k].End() <= index)
    && (current < |blocked| ==>
          var next := blocked[current];
          && index <= next.physicalStart
          && (next.length == 0 ==> index < next.physicalStart || next.physicalStart == 0))
  }

  /** No allocatable cluster is one the pointer jumps over. */
  ghost predicate Eligible(blocked: seq<Extent>, allocatable: set<nat>) {
    forall c, k {:trigger c in allocatable, blocked[k]} :: c in allocatable && 0 <= k < |blocked| ==>
      c < blocked[k].physicalStart || blocked[k].End() < c
  }

  /** Beyond the pointer, unused and allocatable are the same but for skipped clusters. */
  ghost predicate UnusedAhead(
    blocked: seq<Extent>, clusterCount: nat, allocatable: set<nat>, used: set<nat>, index: nat)
  {
    forall c {:trigger c in used} {:trigger c in allocatable} :: index < c < clusterCount ==>
      (c in allocatable ==> c !in used) && (c !in used && c !in allocatable ==> Skipped(blocked, c))
  }

  lemma StepKeepsBoundary(blocked: seq<Extent>, clusterCount: nat, index: nat, current: nat)
    requires WellFormedBlocked(blocked, clusterCount) && current < |blocked|
    requires AtBoundary(blocked, index, current)
    ensures index + 1 < blocked[current].physicalStart ==> AtBoundary(blocked, index + 1, current)
    ensures index + 1 >= blocked[current].physicalStart ==>
              AtBoundary(blocked, blocked[current].End(), current + 1)
  {
  }

  lemma NextClusterIsOpen(blocked: seq<Extent>, clusterCount: nat, allocatable: set<nat>,
                          used: set<nat>, index: nat, current: nat)
    requires WellFormedBlocked(blocked, clusterCount) && current < |blocked|
    requires AtBoundary(blocked, index, current) && index + 1 < blocked[current].physicalStart
    requires UnusedAhead(blocked, clusterCount, allocatable, used, index)
    ensures index + 1 < clusterCount
    ensures index + 1 in allocatable <==> index + 1 !in used
    ensures UnusedAhead(blocked, clusterCount, allocatable, used, index + 1)
  {
    assert current < |blocked| - 1 ==> blocked[current].physicalStart < clusterCount;
    forall k | 0 <= k < |blocked|
      ensures !(blocked[k].physicalStart <= index + 1 <= blocked[k].End())
    {
      if current < k { assert blocked[current].End() <= blocked[k].physicalStart; }
    }
  }

  lemma NextClusterIsBlocked(blocked: seq<Extent>, clusterCount: nat, allocatable: set<nat>,
                             used: set<nat>, index: nat, current: nat)
    requires WellFormedBlocked(blocked, clusterCount) && current < |blocked|
    requires AtBoundary(blocked, index, current) && index + 1 >= blocked[current].physicalStart
    requires Eligible(blocked, allocatable) && (forall c :: c in allocatable ==> 2 <= c)
    requires UnusedAhead(blocked, clusterCount, allocatable, used, index)
    ensures index <= blocked[current].End() <= clusterCount + 1
    ensures current == |blocked| - 1 ==> clusterCount <= index + 1 && clusterCount < blocked[current].End()
    ensures UnusedAhead(blocked, clusterCount, allocatable, used, blocked[current].End())
    ensures forall c :: c in allocatable && index < c ==> blocked[current].End() < c
    ensures index in allocatable && index + 1 == clusterCount ==> current == |blocked| - 1
    ensures index + 1 !in allocatable
  {
    if current < |blocked| - 1 {
      assert blocked[current].physicalStart < clusterCount;
    }
  }

  class ExtentAllocator {
    const clusterCount: nat
    const blocked: seq<Extent>
    const bitmap: array<bv8>
    /** The clusters allocate_extent may ever hand out. */
    ghost const allocatable: set<nat>
    var indexInFat: nat
    var blockedCurrent: nat
    /** The clusters whose bit is set in the bitmap. */
    ghost var used: set<nat>

    ghost predicate BitmapShows(used: set<nat>)
      reads bitmap
    {
      && bitmap.Length == (clusterCount - 1) / 8 + 1
      && forall byte, bit {:trigger BitAt(bitmap[byte], bit)} ::
           0 <= byte < bitmap.Length && 0 <= bit < 8 ==>
             (BitAt(bitmap[byte], bit) <==> 8 * byte + bit in used)
    }

    /** The clusters that are still available. */
    ghost function Remaining(): set<nat>
      reads this
    {
      set c | c in allocatable && indexInFat < c
    }

    predicate Full()
      reads this
    {
      blockedCurrent == |blocked|
    }

    ghost predicate Valid()
      reads this, bitmap
    {
      && FAT_START_INDEX < clusterCount < CLUSTER_ENTRY_LIMIT
      && BitmapShows(used)
      && WellFormedBlocked(blocked, clusterCount)
      && blockedCurrent <= |blocked|
      && indexInFat <= clusterCount + 1
      && (Full() ==> clusterCount < indexInFat)
      && AtBoundary(blocked, indexInFat, blockedCurrent)
      && (forall c :: c in allocatable ==> FAT_START_INDEX <= c < clusterCount)
      && Eligible(blocked, allocatable)
      && UnusedAhead(blocked, clusterCount, allocatable, used, indexInFat)
    }

    lemma RemainingInRange()
      requires Valid()
      ensures forall c :: c in Remaining() ==>
                c in allocatable && FAT_START_INDEX <= c < clusterCount
    {
    }

    /** init_extent_allocator with create_allocation_bitmap; the extents arrive sorted. */
    constructor (fat: seq<nat>, blocked: seq<Extent>, clusterCount: nat)
      requires FAT_START_INDEX < clusterCount < CLUSTER_ENTRY_LIMIT
      requires |fat| >= clusterCount
      requires WellFormedBlocked(blocked, clusterCount)
      ensures Valid() && !Full() && fresh(bitmap)
      ensures this.blocked == blocked && this.clusterCount == clusterCount
      ensures allocatable == set c | FAT_START_INDEX <= c < clusterCount
                                     && IsFreeCluster(fat[c]) && !Skipped(blocked, c)
      ensures Remaining() == allocatable
      ensures used == set c | 0 <= c < clusterCount && (c < FAT_START_INDEX || !IsFreeCluster(fat[c]))
    {
      this.clusterCount := clusterCount;
      this.blocked := blocked;
      this.bitmap := new bv8[(clusterCount - 1) / 8 + 1](_ => 0);
      this.indexInFat := 0;
      this.blockedCurrent := 0;
      this.used := {};
      this.allocatable := set c | FAT_START_INDEX <= c < clusterCount
                                  && IsFreeCluster(fat[c]) && !Skipped(blocked, c);
      new;
      var c := 0;
      while c < clusterCount
        invariant 0 <= c <= clusterCount
        invariant indexInFat == 0 && blockedCurrent == 0
        invariant BitmapShows(used)
        invariant used == set d | 0 <= d < c && (d < FAT_START_INDEX || !IsFreeCluster(fat[d]))
      {
        if c < FAT_START_INDEX || !IsFreeCluster(fat[c]) {
          SetUsed(c);
        }
        c := c + 1;
      }
    }

    method SetUsed(c: nat)
      requires c < clusterCount && BitmapShows(used)
      modifies bitmap, this`used
      ensures BitmapShows(used) && used == old(used) + {c}
    {
      var byte := bitmap[c / 8];
      bitmap[c / 8] := byte | (1 << (c % 8));
      used := used + {c};
      forall bit | 0 <= bit < 8
        ensures BitAt(bitmap[c / 8], bit) == (bit == c % 8 || BitAt(byte, bit))
      {
        BitAfterSet(byte, c % 8, bit);
      }
    }

    /** set_used on the cluster the bump pointer stands on. */
    method SetCurrentUsed()
      requires Valid() && indexInFat < clusterCount
      modifies bitmap, this`used
      ensures Valid() && used == old(used) + {indexInFat}
    {
      SetUsed(indexInFat);
      assert UnusedAhead(blocked, clusterCount, allocatable, used, indexInFat);
    }

    method IsFree(c: nat) returns (free: bool)
      requires c < clusterCount && BitmapShows(used)
      ensures free <==> c !in used
    {
      free := !BitAt(bitmap[c / 8], c % 8);
      assert c == 8 * (c / 8) + c % 8;
    }

    /** can_be_used: advance by one cluster, or jump over the current blocked extent. */
    method CanBeUsed() returns (probe: Probe)
      requires Valid() && !Full()
      modifies `indexInFat, `blockedCurrent
      ensures Valid() && old(blockedCurrent) <= blockedCurrent
      ensures probe.DiskFull? <==> Full()
      ensures probe.DiskFull? ==> old(Remaining()) == {} && clusterCount <= old(indexInFat) + 1
      ensures probe.Usable? ==>
                && indexInFat == old(indexInFat) + 1 && indexInFat in old(Remaining())
                && Remaining() == old(Remaining()) - {indexInFat}
      ensures !probe.Usable? ==> Remaining() == old(Remaining()) && old(indexInFat) + 1 !in Remaining()
      ensures old(indexInFat) in allocatable && old(indexInFat) + 1 == clusterCount ==> probe.DiskFull?
      ensures old(blockedCurrent) < blockedCurrent || old(indexInFat) < indexInFat
    {
      hide AtBoundary, UnusedAhead, Eligible, BitmapShows, WellFormedBlocked;
      ghost var index, k := indexInFat, blockedCurrent;
      StepKeepsBoundary(blocked, clusterCount, index, k);
      indexInFat := indexInFat + 1;
      var current := blocked[blockedCurrent];
      if indexInFat < current.physicalStart {
        NextClusterIsOpen(blocked, clusterCount, allocatable, used, index, k);
        var free := IsFree(indexInFat);
        return if free then Usable else Unusable;
      }
      NextClusterIsBlocked(blocked, clusterCount, allocatable, used, index, k);
      indexInFat := current.End();
      blockedCurrent := blockedCurrent + 1;
      return if blockedCurrent > |blocked| - 1 then DiskFull else Unusable;
    }

    /** The loop that opens allocate_extent. */
    method ProbeUntilUsable() returns (probe: Probe)
      requires Valid() && !Full()
      modifies `indexInFat, `blockedCurrent
      ensures Valid() && !probe.Unusable?
      ensures probe.DiskFull? <==> Full()
      ensures probe.DiskFull? ==> old(Remaining()) == {} && Remaining() == {}
      ensures probe.Usable? ==>
                && indexInFat in old(Remaining())
                && (forall c :: c in Remaining() <==> c in old(Remaining()) && indexInFat < c)
                && (forall c :: c in old(Remaining()) ==> indexInFat <= c < clusterCount)
    {
      probe := CanBeUsed();
      while probe.Unusable?
        invariant Valid() && (probe.DiskFull? <==> Full())
        invariant probe.DiskFull? ==> Remaining() == {}
        invariant probe.Usable? ==>
                    indexInFat in old(Remaining()) && Remaining() == old(Remaining()) - {indexInFat}
        invariant !probe.Usable? ==> Remaining() == old(Remaining())
        decreases probe.Unusable?, |blocked| - blockedCurrent, clusterCount + 1 - indexInFat
      {
        probe := CanBeUsed();
      }
    }

    /** One turn of the second loop of allocate_extent: can_be_used, then set_used. */
    method ClaimNext() returns (probe: Probe)
      requires Valid() && indexInFat in allocatable
      modifies this, bitmap
      ensures Valid()
      ensures probe.DiskFull? <==> Full()
      ensures probe.Usable? ==>
                && indexInFat == old(indexInFat) + 1 && indexInFat in old(Remaining())
                && Remaining() == old(Remaining()) - {indexInFat} && used == old(used) + {indexInFat}
      ensures !probe.Usable? ==>
                && Remaining() == old(Remaining()) && used == old(used)
                && old(indexInFat) + 1 !in Remaining()
      ensures probe.DiskFull? <==> old(indexInFat) + 1 == clusterCount
      ensures probe.DiskFull? ==> Remaining() == {}
    {
      probe := CanBeUsed();
      if probe.Usable? {
        SetCurrentUsed();
      }
    }

    /** allocate_extent: the first available cluster and up to maxLength - 1 that follow it
        directly. The program exits exactly when the available clusters are too few and run
        up to the end of the volume. */
    method AllocateExtent(maxLength: nat) returns (r: Option<Extent>)
      requires Valid() && !Full()
      requires 1 <= maxLength <= 0xFFFF
      modifies this, bitmap
      ensures Valid()
      ensures r.None? <==> Full()
      ensures r.None? <==> Starved(clusterCount, old(Remaining()), maxLength)
      ensures r.None? ==> Remaining() == {} && used == old(used) + old(Remaining())
      ensures r.Some? ==>
                && Taken(old(Remaining()), maxLength, r.value, Remaining())
                && used == old(used) + Span(r.value.physicalStart, r.value.length)
    {
      hide Valid, Starved, Taken;
      ghost var before := Remaining();
      var probe := ProbeUntilUsable();
      if probe.DiskFull? {
        NothingLeftIsStarved(clusterCount, maxLength);
        return None;
      }
      ghost var start := indexInFat;
      SpanGrows(start, 0);
      var result := Extent(0, 1, indexInFat);
      SetCurrentUsed();
      while result.length < maxLength && probe.Usable?
        invariant Valid() && (probe.DiskFull? <==> Full())
        invariant result == Extent(0, result.length, start) && 1 <= result.length <= maxLength
        invariant start in before && result.End() - 1 in allocatable
        invariant forall c :: start <= c < result.End() ==> c in before
        invariant forall c :: c in Remaining() <==> c in before && result.End() <= c
        invariant used == old(used) + Span(start, result.length)
        invariant probe.Usable? ==> indexInFat == result.End() - 1
        invariant !probe.Usable? ==> result.length < maxLength && result.End() !in Remaining()
        invariant probe.DiskFull? <==> !probe.Usable? && result.End() == clusterCount
        invariant probe.DiskFull? ==> Remaining() == {}
        invariant forall c :: c in before ==> start <= c
        decreases probe.Usable?, maxLength - result.length
      {
        probe := ClaimNext();
        if probe.Usable? {
          SpanGrows(start, result.length);
          result := result.(length := indexInFat - result.physicalStart + 1);
        }
      }
      FrontOrStarved(clusterCount, before, maxLength, result, Remaining(), probe.DiskFull?);
      if probe.DiskFull? { return None; }
      return Some(result);
    }
  }

  /** Fewer than maxLength clusters remain, and they run up to the end of the volume. */
  ghost predicate Starved(clusterCount: nat, remaining: set<nat>, maxLength: nat) {
    && (forall c, d :: c in remaining && c <= d < clusterCount ==> d in remaining)
    && (forall c <- remaining :: clusterCount - c < maxLength)
  }

  /** e was cut off the front of what remained: it starts at the smallest remaining cluster
      and is as long as the request or the run of remaining clusters allows. */
  ghost predicate Taken(before: set<nat>, maxLength: nat, e: Extent, after: set<nat>) {
    && e.logicalStart == 0
    && 1 <= e.length <= maxLength
    && Span(e.physicalStart, e.length) <= before
    && after == before - Span(e.physicalStart, e.length)
    && (forall c :: c in after ==> e.End() <= c)
    && (e.length == maxLength || e.End() !in after)
  }

  /** Clusters are only ever taken from the front of what remains. */
  ghost predicate Consumed(before: set<nat>, after: set<nat>) {
    && after <= before
    && forall c, d :: c in before && c !in after && d in after ==> c < d
  }

  lemma ConsumedTransitive(a: set<nat>, b: set<nat>, c: set<nat>)
    requires Consumed(a, b) && Consumed(b, c)
    ensures Consumed(a, c) && c <= b <= a
  {
  }

  lemma NothingLeftIsStarved(clusterCount: nat, maxLength: nat)
    requires 1 <= maxLength
    ensures Starved(clusterCount, {}, maxLength)
  {
  }

  lemma TakenFromFront(before: set<nat>, maxLength: nat, e: Extent, after: set<nat>)
    requires Taken(before, maxLength, e, after)
    ensures var taken := Span(e.physicalStart, e.length);
            before == after + taken && after !! taken && |taken| == e.length && Consumed(before, after)
  {
    SpanSize(e.physicalStart, e.length);
  }

  /** A request is met when there are as many clusters. */
  lemma StarvedIsFew(clusterCount: nat, remaining: set<nat>, maxLength: nat)
    requires Starved(clusterCount, remaining, maxLength) && 1 <= maxLength
    requires forall c :: c in remaining ==> c < clusterCount
    ensures |remaining| < maxLength
  {
    if remaining != {} {
      var first: nat := if maxLength <= clusterCount then clusterCount - maxLength + 1 else 0;
      SpanSize(first, clusterCount - first);
      SubsetSize(remaining, Span(first, clusterCount - first));
    }
  }

  lemma FrontOrStarved(
    clusterCount: nat, before: set<nat>, maxLength: nat, e: Extent, after: set<nat>, full: bool)
    requires forall c :: c in before ==> e.physicalStart <= c < clusterCount
    requires e.logicalStart == 0 && 1 <= e.length <= maxLength
    requires forall c :: e.physicalStart <= c < e.End() ==> c in before
    requires forall c :: c in after <==> c in before && e.End() <= c
    requires full ==> e.length < maxLength && e.End() == clusterCount
    requires !full ==> e.length == maxLength || (e.End() !in before && e.End() < clusterCount)
    ensures full <==> Starved(clusterCount, before, maxLength)
    ensures Taken(before, maxLength, e, after)
    ensures full ==> before == Span(e.physicalStart, e.length)
  {
    assert e.physicalStart in before && e.End() - 1 in before;
    assert after == before - Span(e.physicalStart, e.length);
  }

  lemma BitAfterSet(b: bv8, k: nat, j: nat)
    requires k < 8 && j < 8
    ensures BitAt(b | (1 << k), j) == (j == k || BitAt(b, j))
  {
  }
}
