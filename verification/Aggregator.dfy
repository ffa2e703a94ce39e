/** From a chain of clusters to extents that are safe from the block group headers
    (metadata_reader.cpp). */
module Aggregator {
  import opened Fat
  import opened Allocator
  import opened Disk
  import opened Archive
  import opened Archiver
  import opened Extents

  function ExtentItems(es: seq<Extent>): (r: seq<Item>)
    ensures |r| == |es| && forall i :: 0 <= i < |es| ==> r[i] == ExtentItem(es[i])
  {
    seq(|es|, i requires 0 <= i < |es| => ExtentItem(es[i]))
  }

  /** The segments after items have been added to the open one. */
  ghost function Appended(segs: seq<seq<Item>>, items: seq<Item>): seq<seq<Item>>
    requires |segs| > 0
  {
    segs[|segs| - 1 := Last(segs) + items]
  }

  lemma ReservedThenWritten(log: Log, reserved: Item, segs: seq<seq<Item>>, out: seq<Extent>, e: Extent)
    requires |segs| > 0 && log.segs == Appended(segs, ExtentItems(out))
    ensures var segs1 := WithElement(log, reserved).segs;
            segs1[|segs1| - 1 := Last(segs1)[|Last(segs1)| - 1 := ExtentItem(e)]]
            == Appended(segs, ExtentItems(out + [e]))
  {
    assert (Last(log.segs) + [reserved])[|Last(log.segs)| := ExtentItem(e)] == Last(log.segs) + [ExtentItem(e)];
    assert ExtentItems(out + [e]) == ExtentItems(out) + [ExtentItem(e)];
    assert Last(segs) + (ExtentItems(out) + [ExtentItem(e)]) == (Last(segs) + ExtentItems(out)) + [ExtentItem(e)];
  }

  /** The clusters src, which start at cluster logical of their file, are now at out. */
  ghost predicate Rehomed(blocked: seq<Extent>, payload: map<nat, Cluster>, before: set<nat>, after: set<nat>,
                          logical: nat, src: seq<nat>, out: seq<Extent>)
  {
    Tiled(out, logical) && Relocated(blocked, payload, before, after, src, Clusters(out))
  }

  /** One more extent: it takes the clusters from src2 on, copied or where they were. */
  lemma RehomedSnoc(
    blocked: seq<Extent>, payload1: map<nat, Cluster>, payload2: map<nat, Cluster>,
    before: set<nat>, middle: set<nat>, after: set<nat>,
    logical: nat, src: seq<nat>, out: seq<Extent>, src2: nat, e: Extent)
    requires Rehomed(blocked, payload1, before, middle, logical, src, out)
    requires Relocated(blocked, payload2, middle, after, Run(src2, e.length), Run(e.physicalStart, e.length))
    requires e.logicalStart == logical + |src| && 1 <= e.length <= EXT4_MAX_INIT_EXTENT_LEN
    requires Consumed(before, middle) && Consumed(middle, after) && Grown(payload1, payload2)
    ensures Rehomed(blocked, payload2, before, after, logical, src + Run(src2, e.length), out + [e])
  {
    hide Consumed, Grown, Clusters, Tiled;
    RelocatedGrows(blocked, payload1, payload2, before, middle, middle, src, Clusters(out));
    RelocatedAppend(blocked, payload2, before, middle, after, src, Clusters(out),
                    Run(src2, e.length), Run(e.physicalStart, e.length));
    ClustersSnoc(out, e);
    TiledSnoc(out, e, logical);
  }

  /** A clusters stays where it is when no blocked extent covers it. */
  lemma KeptIsRelocated(blocked: seq<Extent>, payload: map<nat, Cluster>, before: set<nat>, after: set<nat>,
                        start: nat, length: nat)
    requires forall c :: start <= c < start + length ==> c in payload && !InBlocked(blocked, c)
    ensures Relocated(blocked, payload, before, after, Run(start, length), Run(start, length))
  {
  }

  /** The copy of the clusters src, ... to newly allocated clusters dst, ... relocates them. */
  lemma CopyRelocates(
    blocked: seq<Extent>, payload0: map<nat, Cluster>, payload1: map<nat, Cluster>, payload2: map<nat, Cluster>,
    available: set<nat>, after: set<nat>, dst: nat, src: nat, n: nat)
    requires Grown(payload0, payload1) && forall c :: c in payload1 <==> c in payload0 || c in Span(dst, n)
    requires Moved(payload1, payload2, dst, src, n)
    requires Span(dst, n) <= available && Span(dst, n) !! after
    requires forall c :: c in available ==> c !in payload0 && !InBlocked(blocked, c)
    requires forall c :: src <= c < src + n ==> c in payload0 && InBlocked(blocked, c)
    ensures Grown(payload0, payload2)
    ensures Relocated(blocked, payload2, available, after, Run(src, n), Run(dst, n))
  {
    forall c | dst <= c < dst + n ensures c in available && c !in after && c !in payload0 {
      assert c in Span(dst, n);
    }
    assert Grown(payload0, payload2);
    forall j | 0 <= j < n
      ensures var c, d := Run(src, n)[j], Run(dst, n)[j];
              && c in payload2 && d in payload2 && payload2[d] == payload2[c]
              && !InBlocked(blocked, d) && InBlocked(blocked, c) && d in available - after
    {
      var c, d := src + j, dst + j;
      assert d in payload1 && payload2[d] == payload1[src + (d - dst)];
    }
  }

  lemma MovedKeys(before: map<nat, Cluster>, after: map<nat, Cluster>, dst: nat, src: nat, length: nat)
    requires Moved(before, after, dst, src, length)
    ensures after.Keys == before.Keys
  {
  }

  lemma FreshDoesNotOverlap(payload: map<nat, Cluster>, available: set<nat>, dst: nat, src: nat, n: nat)
    requires Span(dst, n) <= available && 0 < n
    requires forall c :: c in available ==> c !in payload
    requires forall c :: src <= c < src + n ==> c in payload
    ensures src + n <= dst || dst + n <= src
  {
    assert dst in Span(dst, n);
    assert dst <= src < dst + n ==> src in Span(dst, n);
  }

  /** The write stream is in the middle of an extent segment: since the given moment it has
      written the extents out, and they hold the clusters src, the file's from logical on. */
  ghost predicate Emitting(w: StreamArchiver, since: Moment, logical: nat, src: seq<nat>, out: seq<Extent>)
    reads w, w.vol, w.vol.disk, w.vol.allocator, w.vol.allocator.bitmap
  {
    && w.Ready(since)
    && |since.log.segs| > 0
    && w.vol.log.segs == Appended(since.log.segs, ExtentItems(out))
    && Rehomed(w.vol.allocator.blocked, w.vol.payload, since.remaining, w.vol.allocator.Remaining(), logical, src, out)
  }

  lemma NothingEmitted(w: StreamArchiver, logical: nat)
    requires w.vol.Valid() && w.AtEnd()
    ensures Emitting(w, w.vol.Now(), logical, [], [])
  {
    hide Volume.Valid;
    LaterReflexive(w.vol.Now());
    assert Last(w.vol.log.segs) + ExtentItems([]) == Last(w.vol.log.segs);
  }

  /** *reserve_extent(write_stream) = extent */
  method EmitExtent(w: StreamArchiver, e: Extent, ghost since: Moment, ghost out: seq<Extent>) returns (ok: bool)
    requires w.Ready(since) && |since.log.segs| > 0
    requires w.vol.log.segs == Appended(since.log.segs, ExtentItems(out))
    modifies w, w.vol, w.vol.disk, w.vol.allocator, w.vol.allocator.bitmap
    ensures w.vol.payload == old(w.vol.payload)
    ensures !ok ==> w.vol.GaveUp(since)
    ensures Uses(old(w.vol.Now()), w.vol.Now(), 1, 0)
    ensures ok ==> w.Ready(since) && Later(old(w.vol.Now()), w.vol.Now())
    ensures ok ==> w.vol.log.segs == Appended(since.log.segs, ExtentItems(out + [e]))
  {
    hide Volume.Valid, Volume.Intact, Spent, Grows, AtEndOf, AddressOf, Appended;
    ghost var m0 := w.vol.Now();
    var r := w.Reserve(EXTENT_SIZE);
    LaterTransitive(since, m0, w.vol.Now());
    if r.None? { return false; }
    ghost var m1, s, k := w.vol.Now(), |w.vol.log.segs| - 1, |Last(w.vol.log.segs)| - 1;
    w.vol.WriteItem(r.value, ExtentItem(e), s, k);
    LaterTransitive(m0, m1, w.vol.Now());
    LaterTransitive(since, m1, w.vol.Now());
    ReservedThenWritten(m0.log, Reserved(EXTENT_SIZE), since.log.segs, out, e);
    return true;
  }

  /** The unblocked fragment e stays in place. */
  method KeepExtent(w: StreamArchiver, e: Extent, ghost since: Moment, ghost logical: nat, ghost src: seq<nat>,
                    ghost out: seq<Extent>)
    returns (ok: bool)
    requires Emitting(w, since, logical, src, out)
    requires e.logicalStart == logical + |src| && 1 <= e.length <= EXT4_MAX_INIT_EXTENT_LEN
    requires forall c :: e.physicalStart <= c < e.End() ==>
               c in since.payload && !InBlocked(w.vol.allocator.blocked, c)
    modifies w, w.vol, w.vol.disk, w.vol.allocator, w.vol.allocator.bitmap
    ensures !ok ==> w.vol.GaveUp(since)
    ensures Uses(old(w.vol.Now()), w.vol.Now(), 1, 0)
    ensures ok ==> Emitting(w, since, logical, src + Run(e.physicalStart, e.length), out + [e])
  {
    hide Volume.Valid, Volume.Intact, AtEndOf, Grows, Relocated, Rehomed, Appended;
    ghost var m0 := w.vol.Now();
    ok := EmitExtent(w, e, since, out);
    if !ok { return; }
    ghost var blocked, after := w.vol.allocator.blocked, w.vol.allocator.Remaining();
    KeptIsRelocated(blocked, w.vol.payload, m0.remaining, after, e.physicalStart, e.length);
    RehomedSnoc(blocked, m0.payload, w.vol.payload, since.remaining, m0.remaining, after,
                logical, src, out, e.physicalStart, e);
  }

  /** resettle_extent: move a blocked extent to newly allocated clusters. */
  method ResettleExtent(w: StreamArchiver, input: Extent, ghost since: Moment, ghost logical: nat, ghost src: seq<nat>,
                        ghost out0: seq<Extent>)
    returns (ok: bool, ghost out: seq<Extent>)
    requires Emitting(w, since, logical, src, out0)
    requires input.logicalStart == logical + |src| && input.length <= EXT4_MAX_INIT_EXTENT_LEN
    requires forall c :: input.physicalStart <= c < input.End() ==>
               c in since.payload && InBlocked(w.vol.allocator.blocked, c)
    modifies w, w.vol, w.vol.disk, w.vol.allocator, w.vol.allocator.bitmap
    ensures !ok ==> w.vol.GaveUp(since)
    ensures Uses(old(w.vol.Now()), w.vol.Now(), input.length, input.length)
    ensures ok ==> Emitting(w, since, logical, src + Run(input.physicalStart, input.length), out)
  {
    hide Emitting, InBlocked, Uses;
    ghost var m0 := w.vol.Now();
    UsesNothing(m0);
    ok, out := true, out0;
    var i := 0;
    assert src + Run(input.physicalStart, 0) == src;
    while i < input.length
      invariant ok && 0 <= i <= input.length && Uses(m0, w.vol.Now(), i, i)
      invariant Emitting(w, since, logical, src + Run(input.physicalStart, i), out)
    {
      var fragment: Extent;
      ghost var m1 := w.vol.Now();
      ok, fragment := ResettleFragment(w, input, i, since, logical, src + Run(input.physicalStart, i), out);
      ghost var n := if ok then fragment.length else input.length - i;
      UsesTransitive(m0, m1, w.vol.Now(), i, i, 1, n);
      UsesMore(m0, w.vol.Now(), i + 1, i + n, i + n, i + n);
      if !ok {
        UsesMore(m0, w.vol.Now(), i + n, i + n, input.length, input.length);
        return;
      }
      RunAppend(input.physicalStart, i, fragment.length);
      assert (src + Run(input.physicalStart, i)) + Run(input.physicalStart + i, fragment.length)
             == src + (Run(input.physicalStart, i) + Run(input.physicalStart + i, fragment.length));
      out := out + [fragment];
      i := i + fragment.length;
    }
  }

  /** One turn of the loop in resettle_extent. */
  method ResettleFragment(w: StreamArchiver, input: Extent, i: nat, ghost since: Moment, ghost logical: nat,
                          ghost src: seq<nat>, ghost out: seq<Extent>)
    returns (ok: bool, fragment: Extent)
    requires Emitting(w, since, logical, src, out)
    requires i < input.length <= EXT4_MAX_INIT_EXTENT_LEN && input.logicalStart + i == logical + |src|
    requires forall c :: input.physicalStart <= c < input.End() ==>
               c in since.payload && InBlocked(w.vol.allocator.blocked, c)
    modifies w, w.vol, w.vol.disk, w.vol.allocator, w.vol.allocator.bitmap
    ensures !ok ==> w.vol.GaveUp(since)
    ensures Uses(old(w.vol.Now()), w.vol.Now(), 1, if ok then fragment.length else input.length - i)
    ensures ok ==>
              && 1 <= fragment.length && i + fragment.length <= input.length
              && Emitting(w, since, logical, src + Run(input.physicalStart + i, fragment.length), out + [fragment])
  {
    hide Volume.Valid, Volume.Intact, AtEndOf, Grows, Starved, Rehomed, Relocated, Moved, Consumed, Appended, Uses;
    ghost var m0 := w.vol.Now();
    w.vol.AvailableIsOpen();
    ghost var n := input.length - i;
    var r := w.vol.Claim(input.length - i);
    LaterTransitive(since, m0, w.vol.Now());
    if r.None? {
      UsesMore(m0, w.vol.Now(), 0, n, 1, n);
      return false, input;
    }
    fragment := r.value.(logicalStart := input.logicalStart + i);
    ghost var m1 := w.vol.Now();
    ok := EmitExtent(w, fragment, since, out);
    ghost var m2 := w.vol.Now();
    UsesTransitive(m0, m1, m2, 0, fragment.length, 1, 0);
    if !ok {
      UsesMore(m0, m2, 1, fragment.length, 1, n);
      return;
    }
    ghost var blocked, after := w.vol.allocator.blocked, w.vol.allocator.Remaining();
    ghost var from := input.physicalStart + i;
    LaterTransitive(m0, m1, w.vol.Now());
    FreshDoesNotOverlap(m0.payload, m0.remaining, fragment.physicalStart, from, fragment.length);
    w.vol.CopyClusters(fragment.physicalStart, input.physicalStart + i, fragment.length);
    MovedKeys(m2.payload, w.vol.payload, fragment.physicalStart, from, fragment.length);
    UsesSame(m0, m2, w.vol.Now(), 1, fragment.length);
    CopyRelocates(blocked, m0.payload, m1.payload, w.vol.payload, m0.remaining, after,
                  fragment.physicalStart, from, fragment.length);
    RehomedSnoc(blocked, m0.payload, w.vol.payload, since.remaining, m0.remaining, after,
                logical, src, out, from, fragment);
    GrownTransitive(since.payload, m0.payload, w.vol.payload);
  }

  // --- Splitting a run of clusters at the blocked extents -----------------------------

  /** find_first_blocked_extent: binary search, leaving out the sentinel. */
  method FindFirstBlockedExtent(blocked: seq<Extent>, ghost clusterCount: nat, physicalAddress: nat)
    returns (begin: nat)
    requires WellFormedBlocked(blocked, clusterCount)
    ensures begin < |blocked|
    ensures forall k :: 0 <= k < begin ==> blocked[k].End() < physicalAddress
    ensures begin < |blocked| - 1 ==> physicalAddress <= blocked[begin].End()
  {
    begin := 0;
    var end := |blocked| - 1;
    while begin < end
      invariant begin <= end <= |blocked| - 1
      invariant forall k :: 0 <= k < begin ==> blocked[k].End() < physicalAddress
      invariant end < |blocked| - 1 ==> physicalAddress <= blocked[end].End()
    {
      var mid := (begin + end) / 2;
      if blocked[mid].End() < physicalAddress {
        begin := mid + 1;
      } else {
        end := mid;
      }
    }
  }

  /** The blocked extent the splitter looks at, when it has dealt with everything before the
      cluster f of a run that ends at physicalEnd; i is the index of the extent after it. */
  ghost predicate Upcoming(blocked: seq<Extent>, f: nat, physicalEnd: nat, next: Option<Extent>, i: nat) {
    match next
    case None => forall k :: 0 <= k < |blocked| ==> blocked[k].End() <= f || physicalEnd <= blocked[k].physicalStart
    case Some(b) =>
      && 0 < i < |blocked| && b == blocked[i - 1]
      && f <= b.End() && b.physicalStart <= physicalEnd
      && forall k :: 0 <= k < i - 1 ==> blocked[k].End() <= f
  }

  /** find_next_blocked_extent */
  method FindNextBlockedExtent(
    blocked: seq<Extent>, i: nat, physicalEnd: nat, ghost clusterCount: nat, ghost f: nat)
    returns (next: Option<Extent>, i': nat)
    requires WellFormedBlocked(blocked, clusterCount) && physicalEnd <= clusterCount
    requires i < |blocked|
    requires f < physicalEnd ==> forall k :: 0 <= k < i ==> blocked[k].End() <= f
    requires f < physicalEnd && i < |blocked| - 1 ==> f <= blocked[i].End()
    ensures f < physicalEnd ==> Upcoming(blocked, f, physicalEnd, next, i')
    ensures i < |blocked| - 1 ==> i' == i + 1
    ensures i == |blocked| - 1 ==> i' == i && next.None?
  {
    if i >= |blocked| - 1 {
      return None, i;
    }
    i' := i + 1;
    if physicalEnd < blocked[i].physicalStart {
      next := None;
    } else {
      next := Some(blocked[i]);
    }
  }

  /** A fragment is blocked as a whole or not at all. */
  lemma FragmentStatus(blocked: seq<Extent>, clusterCount: nat, f: nat, physicalEnd: nat, next: Option<Extent>, i: nat)
    requires WellFormedBlocked(blocked, clusterCount) && Upcoming(blocked, f, physicalEnd, next, i)
    ensures next.Some? ==>
              && 0 < i < |blocked| && f <= next.value.End() && next.value.physicalStart <= physicalEnd
              && (forall k :: 0 <= k < i ==> blocked[k].End() <= next.value.End())
              && (i < |blocked| - 1 ==> next.value.End() <= blocked[i].End())
              && (forall c :: next.value.physicalStart <= c < next.value.End() ==> InBlocked(blocked, c))
              && (f < next.value.physicalStart ==>
                    Upcoming(blocked, next.value.physicalStart, physicalEnd, next, i))
    ensures forall c :: f <= c < (if next.Some? then next.value.physicalStart else physicalEnd) ==>
              !InBlocked(blocked, c)
  {
    if next.Some? {
      assert forall k :: i - 1 <= k < |blocked| ==> next.value.physicalStart <= blocked[k].physicalStart;
    }
  }

  lemma EmittingBlocked(w: StreamArchiver, since: Moment, logical: nat, src: seq<nat>, out: seq<Extent>)
    requires Emitting(w, since, logical, src, out)
    ensures WellFormedBlocked(w.vol.allocator.blocked, w.vol.allocator.clusterCount)
  {
    w.vol.ValidIsIntact();
  }

  /** find_blocked_extent_fragments: cut a run of clusters at the blocked extents. */
  method FindBlockedExtentFragments(w: StreamArchiver, input: Extent, ghost since: Moment, ghost logical: nat,
                                    ghost src: seq<nat>, ghost out0: seq<Extent>)
    returns (ok: bool, ghost out: seq<Extent>)
    requires Emitting(w, since, logical, src, out0) && input.logicalStart == logical + |src|
    requires input.length <= EXT4_MAX_INIT_EXTENT_LEN && input.End() <= w.vol.allocator.clusterCount
    requires forall c :: input.physicalStart <= c < input.End() ==> c in since.payload
    modifies w, w.vol, w.vol.disk, w.vol.allocator, w.vol.allocator.bitmap
    ensures !ok ==> w.vol.GaveUp(since)
    ensures Uses(old(w.vol.Now()), w.vol.Now(), input.length,
                 Moving(w.vol.allocator.blocked, Run(input.physicalStart, input.length)))
    ensures ok ==> Emitting(w, since, logical, src + Run(input.physicalStart, input.length), out)
  {
    hide Emitting, InBlocked, Upcoming, WellFormedBlocked, Run, Volume.GaveUp, Uses, Moving;
    ghost var cc, m0, all := w.vol.allocator.clusterCount, w.vol.Now(), Run(input.physicalStart, input.length);
    UsesNothing(m0);
    var blocked := w.vol.allocator.blocked;
    EmittingBlocked(w, since, logical, src, out0);
    ok, out := true, out0;
    var inputEnd, f := input.End(), input.physicalStart;
    var i := FindFirstBlockedExtent(blocked, cc, input.physicalStart);
    var next: Option<Extent>;
    next, i := FindNextBlockedExtent(blocked, i, inputEnd, cc, f);
    NothingRun(src, input.physicalStart);
    while f < inputEnd
      invariant ok && input.physicalStart <= f <= inputEnd
      invariant f < inputEnd ==> Upcoming(blocked, f, inputEnd, next, i)
      invariant Emitting(w, since, logical, src + Run(input.physicalStart, f - input.physicalStart), out)
      invariant Uses(m0, w.vol.Now(), f - input.physicalStart,
                     Moving(blocked, Run(input.physicalStart, f - input.physicalStart)))
      decreases inputEnd - f, if next.Some? then |blocked| + 1 - i else 0
    {
      var fragmentEnd := inputEnd;
      var isBlocked := next.Some? && next.value.physicalStart <= f;
      FragmentStatus(blocked, cc, f, inputEnd, next, i);
      if isBlocked {
        var blockedEnd := next.value.End();
        if blockedEnd < fragmentEnd { fragmentEnd := blockedEnd; }
        next, i := FindNextBlockedExtent(blocked, i, inputEnd, cc, fragmentEnd);
      } else if next.Some? {
        fragmentEnd := next.value.physicalStart;
      }
      var fragment := Extent(input.logicalStart + (f - input.physicalStart), fragmentEnd - f, f);
      ghost var n := f - input.physicalStart;
      f := fragmentEnd;
      ghost var done, m1 := src + Run(input.physicalStart, n), w.vol.Now();
      if isBlocked {
        ok, out := ResettleExtent(w, fragment, since, logical, done, out);
      } else {
        ghost var out1 := out;
        ok := KeepExtent(w, fragment, since, logical, done, out1);
        out := out1 + [fragment];
      }
      FragmentUses(blocked, m0, m1, w.vol.Now(), input, n, fragment, isBlocked);
      if !ok { return; }
      RunJoins(src, input.physicalStart, n, fragment.length);
    }
  }

  /** What has been used so far, and that it is part of what the whole input may use. */
  lemma FragmentUses(blocked: seq<Extent>, m0: Moment, m1: Moment, m2: Moment, input: Extent, n: nat,
                     fragment: Extent, isBlocked: bool)
    requires Uses(m0, m1, n, Moving(blocked, Run(input.physicalStart, n)))
    requires fragment.physicalStart == input.physicalStart + n && n + fragment.length <= input.length
    requires if isBlocked then Uses(m1, m2, fragment.length, fragment.length)
             else 0 < fragment.length && Uses(m1, m2, 1, 0)
    requires forall c :: fragment.physicalStart <= c < fragment.End() && isBlocked ==> InBlocked(blocked, c)
    ensures Uses(m0, m2, n + fragment.length, Moving(blocked, Run(input.physicalStart, n + fragment.length)))
    ensures Uses(m0, m2, input.length, Moving(blocked, Run(input.physicalStart, input.length)))
  {
    hide InBlocked, Run, Moving;
    var start, upTo := input.physicalStart, n + fragment.length;
    RunAppend(start, n, fragment.length);
    MovingAppend(blocked, Run(start, n), Run(start + n, fragment.length));
    RunAppend(start, upTo, input.length - upTo);
    MovingAppend(blocked, Run(start, upTo), Run(start + upTo, input.length - upTo));
    if isBlocked { MovingRun(blocked, fragment.physicalStart, fragment.length); }
  }

  lemma NothingRun(src: seq<nat>, start: nat)
    ensures src + Run(start, 0) == src && Run(start, 0) == []
  {
  }

  lemma RunJoins(src: seq<nat>, start: nat, m: nat, n: nat)
    ensures (src + Run(start, m)) + Run(start + m, n) == src + Run(start, m + n)
  {
    hide Run;
    RunAppend(start, m, n);
  }

  // --- Following a chain through the file allocation table ----------------------------

  /** chain is the file that starts at cluster first; 0 stands for the empty file. */
  ghost predicate IsChain(fat: seq<nat>, clusterCount: nat, first: nat, chain: seq<nat>) {
    && (first == 0 <==> chain == [])
    && (chain != [] ==> chain[0] == first)
    && (forall i :: 0 <= i < |chain| ==>
          FAT_START_INDEX <= chain[i] < clusterCount && chain[i] < |fat| && chain[i] < FAT_END_OF_CHAIN)
    && (forall i :: 0 <= i < |chain| - 1 ==> fat[chain[i]] == chain[i + 1])
    && (chain != [] ==> FAT_END_OF_CHAIN <= fat[Last(chain)])
  }

  /** Two neighbouring runs could have been one only if the first is as long as ext4 allows. */
  ghost predicate Maximal(runs: seq<Extent>) {
    forall i :: 0 <= i < |runs| - 1 ==>
      runs[i].End() == runs[i + 1].physicalStart ==> runs[i].length == 0x8000
  }

  /** The extents aggregate_extents hands to the splitter expand to exactly this stretch of
      the chain. */
  ghost predicate Aggregated(runs: seq<Extent>, src: seq<nat>) {
    Tiled(runs, 0) && Clusters(runs) == src && Maximal(runs)
  }

  lemma AggregatedSnoc(runs: seq<Extent>, src: seq<nat>, e: Extent)
    requires Aggregated(runs, src) && e.logicalStart == |src|
    requires 1 <= e.length <= EXT4_MAX_INIT_EXTENT_LEN
    requires runs != [] && Last(runs).End() == e.physicalStart ==> Last(runs).length == EXT4_MAX_INIT_EXTENT_LEN
    ensures Aggregated(runs + [e], src + Run(e.physicalStart, e.length))
  {
    ClustersSnoc(runs, e);
    TiledSnoc(runs, e, 0);
    assert Maximal(runs + [e]) by {
      hide Clusters, Tiled;
    }
  }

  /** The run that is being collected: a stretch of the chain from its cluster m on. */
  ghost predicate Collecting(chain: seq<nat>, m: nat, runs: seq<Extent>, current: Extent) {
    && current.logicalStart == m && 1 <= current.length <= EXT4_MAX_INIT_EXTENT_LEN
    && m + current.length <= |chain|
    && chain[m..m + current.length] == Run(current.physicalStart, current.length)
    && (runs != [] && Last(runs).End() == current.physicalStart ==>
          Last(runs).length == EXT4_MAX_INIT_EXTENT_LEN)
  }

  lemma StartOfChain(fat: seq<nat>, clusterCount: nat, first: nat, chain: seq<nat>)
    requires IsChain(fat, clusterCount, first, chain)
    ensures Aggregated([], chain[..0])
    ensures first == 0 <==> |chain| == 0
    ensures first != 0 ==> chain[0] == first && Collecting(chain, 0, [], Extent(0, 1, first))
  {
    if first != 0 { StartCollecting(chain, 0, []); }
  }

  /** What the next turn of the loop in aggregate_extents looks at. */
  lemma NextInChain(fat: seq<nat>, clusterCount: nat, first: nat, chain: seq<nat>, i: nat)
    requires IsChain(fat, clusterCount, first, chain) && i < |chain|
    ensures first != 0 && chain[0] == first && chain[i] < |fat|
    ensures FAT_END_OF_CHAIN <= fat[chain[i]] <==> i == |chain| - 1
    ensures i < |chain| - 1 ==> fat[chain[i]] == chain[i + 1] && chain[i + 1] < |fat|
  {
    if i < |chain| - 1 {
      assert fat[chain[i]] == chain[i + 1] && chain[i + 1] < FAT_END_OF_CHAIN;
    }
  }

  lemma CollectOneMore(chain: seq<nat>, m: nat, runs: seq<Extent>, current: Extent)
    requires Collecting(chain, m, runs, current) && m + current.length < |chain|
    requires chain[m + current.length] == current.End() && current.length < EXT4_MAX_INIT_EXTENT_LEN
    ensures Collecting(chain, m, runs, current.(length := current.length + 1))
  {
    RunAppend(current.physicalStart, current.length, 1);
    assert chain[m..m + current.length + 1] == chain[m..m + current.length] + [current.End()];
  }

  lemma StartCollecting(chain: seq<nat>, m: nat, runs: seq<Extent>)
    requires m < |chain|
    requires runs != [] && Last(runs).End() == chain[m] ==> Last(runs).length == EXT4_MAX_INIT_EXTENT_LEN
    ensures Collecting(chain, m, runs, Extent(m, 1, chain[m]))
  {
    assert chain[m..m + 1] == [chain[m]];
  }

  /** A collected run is complete, and its clusters are those of the chain. */
  lemma RunCollected(fat: seq<nat>, clusterCount: nat, first: nat, chain: seq<nat>, m: nat, runs: seq<Extent>,
                     current: Extent)
    requires IsChain(fat, clusterCount, first, chain)
    requires Collecting(chain, m, runs, current) && Aggregated(runs, chain[..m])
    ensures Aggregated(runs + [current], chain[..m + current.length])
    ensures chain[..m + current.length] == chain[..m] + Run(current.physicalStart, current.length)
    ensures current.End() <= clusterCount
    ensures forall c :: current.physicalStart <= c < current.End() ==> c in chain
  {
    hide Aggregated;
    var run := Run(current.physicalStart, current.length);
    assert chain[..m + current.length] == chain[..m] + run;
    AggregatedSnoc(runs, chain[..m], current);
    forall c | current.physicalStart <= c < current.End()
      ensures c in chain && c < clusterCount
    {
      assert run[c - current.physicalStart] == c;
      assert chain[m..m + current.length][c - current.physicalStart] in chain;
    }
    assert chain[m..m + current.length][current.length - 1] == chain[m + current.length - 1] == current.End() - 1;
  }

  /** aggregate_extents: write the final extents of a file or directory as one segment. */
  method AggregateExtents(w: StreamArchiver, fat: seq<nat>, clusterNo: nat, ghost chain: seq<nat>)
    returns (ok: bool, ghost runs: seq<Extent>, ghost out: seq<Extent>)
    requires w.vol.Valid() && w.AtEnd()
    requires clusterNo < |fat| && IsChain(fat, w.vol.allocator.clusterCount, clusterNo, chain)
    requires forall c :: c in chain ==> c in w.vol.payload
    modifies w, w.vol, w.vol.disk, w.vol.allocator, w.vol.allocator.bitmap
    ensures !ok ==> w.vol.GaveUp(old(w.vol.Now()))
    ensures Uses(old(w.vol.Now()), w.vol.Now(), |chain| + 1, Moving(w.vol.allocator.blocked, chain))
    ensures ok ==>
              && w.Ready(old(w.vol.Now())) && |old(w.vol.log.segs)| > 0
              && w.vol.log.segs == Appended(old(w.vol.log.segs), ExtentItems(out)) + [[]]
              && Aggregated(runs, chain)
              && Rehomed(w.vol.allocator.blocked, w.vol.payload, old(w.vol.allocator.Remaining()),
                         w.vol.allocator.Remaining(), 0, chain, out)
  {
    hide Emitting, Aggregated, IsChain, Collecting, Volume.Valid, AtEndOf, Uses, Moving;
    ghost var since, cc, blocked := w.vol.Now(), w.vol.allocator.clusterCount, w.vol.allocator.blocked;
    UsesNothing(since);
    NothingEmitted(w, 0);
    StartOfChain(fat, cc, clusterNo, chain);
    assert chain[..0] == [];
    ok, runs, out := true, [], [];
    ghost var m: nat := 0;
    var current := Extent(0, 1, clusterNo);
    var next := fat[clusterNo];
    var isEnd := false;
    while clusterNo != 0 && !isEnd
      invariant ok && m <= |chain|
      invariant Emitting(w, since, 0, chain[..m], out) && Aggregated(runs, chain[..m])
      invariant Uses(since, w.vol.Now(), m, Moving(blocked, chain[..m]))
      invariant clusterNo == 0 || isEnd ==> m == |chain|
      invariant clusterNo != 0 && !isEnd ==>
                  && Collecting(chain, m, runs, current) && CollectedEnd(chain, m, current) < |fat|
                  && next == fat[CollectedEnd(chain, m, current)]
      decreases !isEnd, |chain| - m - current.length
    {
      CollectingBounds(chain, m, runs, current);
      NextInChain(fat, cc, clusterNo, chain, m + current.length - 1);
      isEnd := next >= FAT_END_OF_CHAIN;
      var isConsecutive := next == current.physicalStart + current.length;
      var hasMaxLength := current.length == EXT4_MAX_INIT_EXTENT_LEN;
      if isEnd || !isConsecutive || hasMaxLength {
        RunCollected(fat, cc, clusterNo, chain, m, runs, current);
        ghost var m1 := w.vol.Now();
        ok, out := FindBlockedExtentFragments(w, current, since, 0, chain[..m], out);
        RunUses(blocked, since, m1, w.vol.Now(), chain, m, current);
        if !ok { return; }
        m, runs := m + current.length, runs + [current];
        if !isEnd { StartCollecting(chain, m, runs); }
        current := Extent(current.logicalStart + current.length, 1, next);
      } else {
        CollectOneMore(chain, m, runs, current);
        current := current.(length := current.length + 1);
      }
      if !isEnd {
        next := fat[next];
      }
    }
    assert chain[..|chain|] == chain;
    ghost var m2 := w.vol.Now();
    ok := FinishExtents(w, since, chain, out);
    UsesTransitive(since, m2, w.vol.Now(), |chain|, Moving(blocked, chain), 1, 0);
  }

  lemma RunUses(blocked: seq<Extent>, m0: Moment, m1: Moment, m2: Moment, chain: seq<nat>, m: nat, e: Extent)
    requires m + e.length <= |chain| && chain[..m + e.length] == chain[..m] + Run(e.physicalStart, e.length)
    requires Uses(m0, m1, m, Moving(blocked, chain[..m]))
    requires Uses(m1, m2, e.length, Moving(blocked, Run(e.physicalStart, e.length)))
    ensures Uses(m0, m2, m + e.length, Moving(blocked, chain[..m + e.length]))
    ensures Uses(m0, m2, |chain| + 1, Moving(blocked, chain))
  {
    hide Moving;
    MovingAppend(blocked, chain[..m], Run(e.physicalStart, e.length));
    MovingAppend(blocked, chain[..m + e.length], chain[m + e.length..]);
    assert chain == chain[..m + e.length] + chain[m + e.length..];
  }

  /** The cluster of the chain a collected run ends with. */
  ghost function CollectedEnd(chain: seq<nat>, m: nat, current: Extent): nat {
    if 0 < m + current.length <= |chain| then chain[m + current.length - 1] else 0
  }

  lemma CollectingBounds(chain: seq<nat>, m: nat, runs: seq<Extent>, current: Extent)
    requires Collecting(chain, m, runs, current)
    ensures current.logicalStart == m && 1 <= current.length <= EXT4_MAX_INIT_EXTENT_LEN
    ensures m + current.length <= |chain|
  {
  }

  /** The cut that ends an extent segment. */
  method FinishExtents(w: StreamArchiver, ghost since: Moment, ghost src: seq<nat>,
                       ghost out: seq<Extent>) returns (ok: bool)
    requires Emitting(w, since, 0, src, out)
    modifies w, w.vol, w.vol.disk, w.vol.allocator, w.vol.allocator.bitmap
    ensures !ok ==> w.vol.GaveUp(since)
    ensures Uses(old(w.vol.Now()), w.vol.Now(), 1, 0)
    ensures ok ==>
              && w.Ready(since) && |since.log.segs| > 0
              && w.vol.log.segs == Appended(since.log.segs, ExtentItems(out)) + [[]]
              && Rehomed(w.vol.allocator.blocked, w.vol.payload, since.remaining,
                         w.vol.allocator.Remaining(), 0, src, out)
  {
    hide Volume.Valid, AtEndOf, Appended, Grows, Relocated, Tiled, Clusters;
    ghost var m0 := w.vol.Now();
    ok := w.Cut();
    LaterTransitive(since, m0, w.vol.Now());
    if !ok { return; }
    RelocatedGrows(w.vol.allocator.blocked, m0.payload, w.vol.payload, since.remaining, m0.remaining,
                   w.vol.allocator.Remaining(), src, Clusters(out));
  }
}
