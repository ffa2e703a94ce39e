/** The volume being converted and the cursors into the archive kept on it
    (stream-archiver.cpp). */
module Archiver {
  import opened Fat
  import opened Allocator
  import opened Disk
  import opened Archive

  /** The program's global state: the clusters, their allocator, and in ghost form the
      archive and the cluster contents that must survive. */
  class Volume {
    const allocator: ExtentAllocator
    const disk: array<Cluster>
    const pageSize: nat
    ghost var log: Log
    ghost var payload: map<nat, Cluster>

    /** What holds even after the program gave up: the payload is intact. */
    ghost predicate Intact()
      reads this, disk, allocator, allocator.bitmap
    {
      && allocator.Valid() && allocator.bitmap as object != disk
      && disk.Length == allocator.clusterCount
      && PAGE_LINK_SIZE + DENTRY_SIZE <= pageSize
      && (forall c :: c in payload ==>
            c < disk.Length && disk[c] == payload[c] && c !in allocator.Remaining())
    }

    /** Every allocatable cluster is still available, a page, or holds payload. */
    ghost predicate Accounted()
      reads this, allocator
    {
      forall c :: c in allocator.allocatable ==>
        c in allocator.Remaining() || c in log.pages || c in payload
    }

    ghost function Now(): Moment
      reads this, allocator
    {
      Moment(log, payload, allocator.Remaining())
    }

    /** The program has given up: no allocatable cluster is left, and no payload is lost. */
    ghost predicate GaveUp(since: Moment)
      reads this, disk, allocator, allocator.bitmap
    {
      && Intact() && allocator.Full() && allocator.Remaining() == {} && Spent(since, Now())
      && Accounted() && Filled(log, pageSize)
    }

    ghost predicate Kept()
      reads this, disk, allocator, allocator.bitmap
    {
      && Intact() && !allocator.Full()
      && Stored(disk[..], log.slots, log.pages, pageSize)
      && (forall p :: p in log.pages ==> p !in payload && p !in allocator.Remaining())
      && Accounted()
    }

    ghost predicate Valid()
      reads this, disk, allocator, allocator.bitmap
    {
      Kept() && Complete(log)
    }

    constructor (allocator: ExtentAllocator, disk: array<Cluster>, pageSize: nat)
      requires allocator.Valid() && !allocator.Full()
      requires disk.Length == allocator.clusterCount && allocator.bitmap as object != disk
      requires PAGE_LINK_SIZE + DENTRY_SIZE <= pageSize
      ensures this.allocator == allocator && this.disk == disk && this.pageSize == pageSize
      ensures Intact() && log == Log([], [], [], []) && Accounted()
      ensures payload == map c | 0 <= c < disk.Length && c !in allocator.Remaining() :: disk[c]
    {
      this.allocator := allocator;
      this.disk := disk;
      this.pageSize := pageSize;
      this.log := Log([], [], [], []);
      this.payload := map c | 0 <= c < disk.Length && c !in allocator.Remaining() :: disk[c];
    }

    /** allocatePage */
    method AllocatePage() returns (r: Option<nat>)
      requires Intact() && !allocator.Full() && Accounted()
      modifies allocator, allocator.bitmap
      ensures Intact()
      ensures r.None? <==> allocator.Full()
      ensures r.None? ==> allocator.Remaining() == old(allocator.Remaining()) == {}
      ensures r.Some? ==>
                && r.value in old(allocator.Remaining())
                && allocator.Remaining() == old(allocator.Remaining()) - {r.value}
                && Consumed(old(allocator.Remaining()), allocator.Remaining())
                && FAT_START_INDEX <= r.value < disk.Length
    {
      allocator.RemainingInRange();
      var e := allocator.AllocateExtent(1);
      if e.None? {
        StarvedIsFew(allocator.clusterCount, old(allocator.Remaining()), 1);
        return None;
      }
      SpanGrows(e.value.physicalStart, 0);
      assert e.value.physicalStart in Span(e.value.physicalStart, 1);
      return Some(e.value.physicalStart);
    }

    /** allocate_extent. The clusters count as payload from here on: whatever they hold now,
        only the move they were allocated for may write them. So do those that are taken in vain. */
    method Claim(maxLength: nat) returns (r: Option<Extent>)
      requires Valid() && 1 <= maxLength <= 0xFFFF
      modifies `payload, allocator, allocator.bitmap
      ensures r.None? ==> GaveUp(old(Now())) && |old(allocator.Remaining())| < maxLength
      ensures r.Some? ==>
                && Valid() && Later(old(Now()), Now())
                && Taken(old(allocator.Remaining()), maxLength, r.value, allocator.Remaining())
                && forall c :: c in payload <==> c in old(payload) || c in Span(r.value.physicalStart, r.value.length)
      ensures Uses(old(Now()), Now(), 0, if r.Some? then r.value.length else maxLength)
    {
      hide Stored, Complete, Starved, Taken, ExtentAllocator.Valid, Later, Uses, Volume.GaveUp;
      allocator.RemainingInRange();
      r := allocator.AllocateExtent(maxLength);
      if r.None? {
        TakeInVain(old(Now()), maxLength);
      } else {
        TakenFromFront(old(allocator.Remaining()), maxLength, r.value, allocator.Remaining());
        TakeForPayload(old(Now()), maxLength, r.value);
      }
    }

    ghost method TakeForPayload(since: Moment, maxLength: nat, e: Extent)
      requires Intact() && !allocator.Full() && since == Now().(remaining := since.remaining)
      requires Stored(disk[..], log.slots, log.pages, pageSize) && Complete(log)
      requires Taken(since.remaining, maxLength, e, allocator.Remaining())
      requires forall c :: c in since.remaining ==> c < allocator.clusterCount && c !in payload
      requires forall p :: p in log.pages ==> p !in payload && p !in since.remaining
      requires forall c :: c in allocator.allocatable ==> c in since.remaining || c in log.pages || c in payload
      modifies `payload
      ensures Valid() && Later(since, Now()) && Uses(since, Now(), 0, e.length)
      ensures forall c :: c in payload <==> c in since.payload || c in Span(e.physicalStart, e.length)
    {
      hide Stored, Complete, ExtentAllocator.Valid, ExtentAllocator.Remaining, Size, Span, Taken, Consumed, Later,
           Volume.Accounted;
      TakenFromFront(since.remaining, maxLength, e, allocator.Remaining());
      var taken := Span(e.physicalStart, e.length);
      var more := map c | c in taken :: disk[c];
      MorePayload(payload, more, taken, e.length);
      payload := payload + more;
      AllAccounted(since.remaining);
      LaterSameLog(since, Now());
    }

    ghost method TakeInVain(since: Moment, maxLength: nat)
      requires Intact() && allocator.Full() && allocator.Remaining() == {}
      requires since == Now().(remaining := since.remaining)
      requires Stored(disk[..], log.slots, log.pages, pageSize)
      requires 1 <= maxLength && Starved(allocator.clusterCount, since.remaining, maxLength)
      requires forall c :: c in since.remaining ==> c < allocator.clusterCount && c !in payload
      requires forall c :: c in allocator.allocatable ==> c in since.remaining || c in log.pages || c in payload
      modifies `payload
      ensures GaveUp(since)
      ensures Uses(since, Now(), 0, maxLength)
      ensures |since.remaining| < maxLength
    {
      hide Stored, ExtentAllocator.Valid, Starved, Filled, ExtentAllocator.Remaining, Volume.Accounted, Size;
      StarvedIsFew(allocator.clusterCount, since.remaining, maxLength);
      StoredIsFilled(disk[..], log, pageSize);
      var more := map c | c in since.remaining :: disk[c];
      MorePayload(payload, more, since.remaining, maxLength);
      payload := payload + more;
      AllAccounted(since.remaining);
    }

    lemma AllAccounted(taken: set<nat>)
      requires forall c :: c in allocator.allocatable ==> c in taken || c in log.pages || c in payload
      requires forall c :: c in taken ==> c in allocator.Remaining() || c in payload
      ensures Accounted()
    {
    }

    lemma ValidIsIntact()
      requires Valid()
      ensures Intact() && !allocator.Full()
      ensures WellFormedBlocked(allocator.blocked, allocator.clusterCount)
      ensures ArchiveOk(disk[..], log, pageSize)
    {
    }

    lemma PayloadIsOnDisk(c: nat)
      requires Valid() && c in payload
      ensures c < disk.Length && disk[c] == payload[c]
    {
    }

    lemma AllocatableAhead()
      requires Intact()
      ensures allocator.Remaining() <= allocator.allocatable && allocator.Remaining() !! payload.Keys
    {
      hide ExtentAllocator.Valid;
    }

    lemma PayloadInRange()
      requires Intact()
      ensures forall c :: c in payload ==> c < allocator.clusterCount && c !in allocator.Remaining()
    {
    }

    lemma AvailableIsOpen()
      requires Valid()
      ensures forall c :: c in allocator.Remaining() ==>
                c !in payload && !InBlocked(allocator.blocked, c) && FAT_START_INDEX <= c
    {
      hide Stored, Complete;
    }

    /** memcpy of length clusters, one at a time. */
    method CopyClusters(dst: nat, src: nat, length: nat)
      requires Valid()
      requires forall c :: src <= c < src + length || dst <= c < dst + length ==> c in payload
      requires src + length <= dst || dst + length <= src
      modifies `payload, disk
      ensures Valid()
      ensures Moved(old(payload), payload, dst, src, length)
    {
      hide Valid;
      var j := 0;
      while j < length
        invariant 0 <= j <= length
        invariant Valid()
        invariant Moved(old(payload), payload, dst, src, j)
      {
        assert payload[src + j] == old(payload)[src + j];
        CopyCluster(dst + j, src + j);
        j := j + 1;
      }
    }

    method CopyCluster(dst: nat, src: nat)
      requires Valid() && src in payload && dst in payload
      modifies `payload, disk
      ensures Valid() && payload == old(payload)[dst := old(payload)[src]]
    {
      hide Stored, Complete, ExtentAllocator.Valid;
      OtherClustersKeepStored(disk[..], disk[..][dst := disk[src]], log.slots, log.pages, pageSize);
      disk[dst] := disk[src];
      payload := payload[dst := disk[src]];
    }

    /** A write through a pointer to a cluster that holds payload. */
    method WriteCluster(c: nat, content: Cluster)
      requires Valid() && c in payload
      modifies `payload, disk
      ensures Valid() && payload == old(payload)[c := content]
    {
      hide Stored, Complete, ExtentAllocator.Valid;
      OtherClustersKeepStored(disk[..], disk[..][c := content], log.slots, log.pages, pageSize);
      disk[c] := content;
      payload := payload[c := content];
    }

    /** The block group headers are written over whatever the blocked clusters hold, which
        counts as payload no longer. */
    method OverwriteMetadata()
      requires Valid() && HeadersIn(allocator.blocked, allocator.clusterCount, payload)
      modifies `payload, disk
      ensures Valid() && payload == Unblocked(allocator.blocked, old(payload))
      ensures forall c: nat :: c < disk.Length && InBlocked(allocator.blocked, c) ==> disk[c] == GroupMetadata
    {
      hide Stored, Complete, ExtentAllocator.Valid, InBlocked, Overwritten;
      ValidIsIntact();
      ghost var before, blocked := payload, allocator.blocked;
      NothingOverwritten(blocked, before);
      var k := 0;
      while k < |allocator.blocked| - 1
        invariant 0 <= k <= |blocked| - 1 && Valid() && Overwritten(blocked, before, payload, k, 0)
      {
        var c := allocator.blocked[k].physicalStart;
        NextHeader(blocked, before, payload, k);
        while c < allocator.blocked[k].End()
          invariant blocked[k].physicalStart <= c && Valid() && Overwritten(blocked, before, payload, k, c)
        {
          BlockedHere(blocked, allocator.clusterCount, k, c);
          OverwriteOne(blocked, allocator.clusterCount, before, payload, k, c);
          WriteCluster(c, GroupMetadata);
          c := c + 1;
        }
        HeaderOverwritten(blocked, before, payload, k, c);
        k := k + 1;
      }
      DropBlocked(before);
    }

    ghost method DropBlocked(before: map<nat, Cluster>)
      requires Valid() && HeadersIn(allocator.blocked, allocator.clusterCount, before)
      requires |allocator.blocked| > 0 && Overwritten(allocator.blocked, before, payload, |allocator.blocked| - 1, 0)
      modifies `payload
      ensures Valid() && payload == Unblocked(allocator.blocked, before)
      ensures forall c: nat :: c < disk.Length && InBlocked(allocator.blocked, c) ==> disk[c] == GroupMetadata
    {
      hide Stored, Complete, InBlocked, Overwritten;
      AllOverwritten(allocator.blocked, allocator.clusterCount, before, payload);
      AllocatableIsOpen(allocator.blocked, allocator.allocatable);
      payload := Unblocked(allocator.blocked, payload);
    }

    /** Enter into the log the slot that has just been placed; view and remaining are the
        disk and the available clusters from before a page was taken for it. */
    ghost method RecordSlot(content: Content, p: nat, view: seq<Cluster>, remaining: set<nat>)
      requires Intact() && !allocator.Full() && Stored(view, log.slots, log.pages, pageSize)
      requires content == Head(None) || (content.Element? && content.item.Reserved?)
      requires 0 < content.Size() <= DENTRY_SIZE
      requires forall q :: q in log.pages ==> q !in payload && q !in remaining
      requires forall c :: c in allocator.allocatable ==> c in remaining || c in log.pages || c in payload
      requires |log.pages| > 0 && |log.slots| > 0
      requires if Last(log.slots).End() + content.Size() <= pageSize
               then disk[..] == view && allocator.Remaining() == remaining && p == Last(log.pages)
               else
                 && p in remaining && p !in payload && FAT_START_INDEX <= p < |view|
                 && allocator.Remaining() == remaining - {p}
                 && Last(log.pages) < |view| && view[Last(log.pages)].Page?
                 && disk[..] == WithPage(view, Last(log.pages), p)
      modifies `log
      ensures Kept() && log == WithSlot(old(log), content, pageSize, p)
      ensures OneMoreSlot(old(log), log, content) && Last(log.pages) == p
    {
      hide Stored, ExtentAllocator.Valid;
      LastPage(view, log, pageSize);
      assert p !in remaining ==> p in log.pages;
      WithSlotKeepsStored(view, log, content, pageSize, p);
      log := WithSlot(log, content, pageSize, p);
    }

    /** Write one cell of the archive through a pointer obtained from iterateStreamArchiver. */
    method WriteCell(addr: Addr, cell: Cell, ghost i: nat, ghost content: Content)
      requires Kept() && i < |log.slots|
      requires log.slots[i].page < |log.pages| && addr == AddrOf(log.slots[i], log.pages)
      requires content.Size() == log.slots[i].content.Size() && Writes(content, cell)
      modifies `log, disk
      ensures Kept() && log == old(log).(slots := WithContent(old(log.slots), i, content))
    {
      hide Stored, ExtentAllocator.Valid, Writes;
      ghost var view := disk[..];
      PageOfSlot(view, log, pageSize, i);
      WithCellKeepsStored(view, log, pageSize, i, content, cell);
      var page := disk[addr.page];
      disk[addr.page] := page.(cells := page.cells[addr.offset := cell]);
      assert disk[..] == WithCell(view, addr, cell);
      log := log.(slots := WithContent(log.slots, i, content));
    }

    /** Write element k of segment s. */
    method WriteItem(addr: Addr, item: Item, ghost s: nat, ghost k: nat)
      requires Valid() && AddressOf(log, s, k, addr)
      requires SizeOf(item) == SizeOf(log.segs[s][k])
      modifies `log, disk
      ensures Valid() && Later(old(Now()), Now()) && Uses(old(Now()), Now(), 0, 0)
      ensures log.segs == old(log.segs)[s := old(log.segs[s])[k := item]]
      ensures forall pos :: AtEndOf(old(log), pos) ==> AtEndOf(log, pos)
    {
      hide Stored, ExtentAllocator.Valid, Complete;
      ghost var before := log;
      WithItemKeepsSegments(before, s, k, item);
      WithItemGrows(before, s, k, item);
      WriteCell(addr, ItemCell(item), log.heads[s] + 1 + k, Element(item));
      log := WithItem(before, s, k, item);
    }
  }

  /** Every cluster of a block group header counts as payload. */
  ghost predicate HeadersIn(blocked: seq<Extent>, clusterCount: nat, payload: map<nat, Cluster>) {
    forall c: nat :: c < clusterCount && InBlocked(blocked, c) ==> c in payload
  }

  ghost function Unblocked(blocked: seq<Extent>, payload: map<nat, Cluster>): map<nat, Cluster> {
    map c | c in payload && !InBlocked(blocked, c) :: payload[c]
  }

  /** The first k headers, and the next one up to cluster upTo, have been written. */
  ghost predicate Overwritten(blocked: seq<Extent>, before: map<nat, Cluster>, after: map<nat, Cluster>, k: nat,
                              upTo: nat)
    requires k < |blocked|
  {
    && after.Keys == before.Keys
    && (forall c {:trigger after[c]} :: c in after && !InBlocked(blocked, c) ==> after[c] == before[c])
    && (forall c {:trigger after[c]} ::
          c in after && (InBlocked(blocked[..k], c) || blocked[k].physicalStart <= c < upTo) ==>
          after[c] == GroupMetadata)
  }

  lemma NothingOverwritten(blocked: seq<Extent>, before: map<nat, Cluster>)
    ensures |blocked| > 0 ==> Overwritten(blocked, before, before, 0, 0)
  {
    assert forall c: nat :: !InBlocked(blocked[..0], c);
  }

  lemma NextHeader(blocked: seq<Extent>, before: map<nat, Cluster>, after: map<nat, Cluster>, k: nat)
    requires k < |blocked| && Overwritten(blocked, before, after, k, 0)
    ensures Overwritten(blocked, before, after, k, blocked[k].physicalStart)
  {
    hide InBlocked;
  }

  lemma OverwriteOne(blocked: seq<Extent>, clusterCount: nat, before: map<nat, Cluster>, after: map<nat, Cluster>,
                     k: nat, c: nat)
    requires k < |blocked| && Overwritten(blocked, before, after, k, c) && InBlocked(blocked, c) && c < clusterCount
    requires HeadersIn(blocked, clusterCount, before)
    ensures c in after && Overwritten(blocked, before, after[c := GroupMetadata], k, c + 1)
  {
    hide InBlocked;
  }

  lemma HeaderOverwritten(blocked: seq<Extent>, before: map<nat, Cluster>, after: map<nat, Cluster>, k: nat, c: nat)
    requires k + 1 < |blocked| && Overwritten(blocked, before, after, k, c) && blocked[k].End() <= c
    ensures Overwritten(blocked, before, after, k + 1, 0)
  {
    hide InBlocked;
    forall d: nat
      ensures InBlocked(blocked[..k + 1], d) <==>
                InBlocked(blocked[..k], d) || blocked[k].physicalStart <= d < blocked[k].End()
    {
      BlockedUpTo(blocked, k, d);
    }
  }

  lemma AllOverwritten(blocked: seq<Extent>, clusterCount: nat, before: map<nat, Cluster>, after: map<nat, Cluster>)
    requires WellFormedBlocked(blocked, clusterCount) && HeadersIn(blocked, clusterCount, before)
    requires Overwritten(blocked, before, after, |blocked| - 1, 0)
    ensures Unblocked(blocked, after) == Unblocked(blocked, before)
    ensures forall c: nat :: c < clusterCount && InBlocked(blocked, c) ==> c in after && after[c] == GroupMetadata
  {
    hide InBlocked;
    forall c: nat | c < clusterCount && InBlocked(blocked, c) ensures c in after && after[c] == GroupMetadata {
      BlockedUpTo(blocked, |blocked| - 1, c);
      assert blocked[..|blocked| - 1 + 1] == blocked;
    }
  }

  lemma BlockedHere(blocked: seq<Extent>, clusterCount: nat, k: nat, c: nat)
    requires WellFormedBlocked(blocked, clusterCount) && k < |blocked| - 1
    requires blocked[k].physicalStart <= c < blocked[k].End()
    ensures InBlocked(blocked, c) && c < clusterCount
  {
    assert blocked[k].End() <= blocked[|blocked| - 1].physicalStart;
  }

  lemma AllocatableIsOpen(blocked: seq<Extent>, allocatable: set<nat>)
    requires Eligible(blocked, allocatable)
    ensures forall c :: c in allocatable ==> !InBlocked(blocked, c)
  {
  }

  lemma BlockedUpTo(blocked: seq<Extent>, k: nat, c: nat)
    requires k < |blocked|
    ensures InBlocked(blocked[..k + 1], c) <==>
              InBlocked(blocked[..k], c) || blocked[k].physicalStart <= c < blocked[k].End()
  {
    if InBlocked(blocked[..k], c) {
      var j :| 0 <= j < k && blocked[..k][j].physicalStart <= c < blocked[..k][j].End();
      assert blocked[..k + 1][j] == blocked[..k][j];
    }
    if InBlocked(blocked[..k + 1], c) {
      var j :| 0 <= j < k + 1 && blocked[..k + 1][j].physicalStart <= c < blocked[..k + 1][j].End();
      if j < k { assert blocked[..k][j] == blocked[j]; }
    }
    if blocked[k].physicalStart <= c < blocked[k].End() {
      assert blocked[..k + 1][k] == blocked[k];
    }
  }

  /** What the contracts compare: the archive, the payload and the clusters still available. */
  datatype Moment = Moment(log: Log, payload: map<nat, Cluster>, remaining: set<nat>)

  /** No payload has been lost, and clusters have only been taken from the front. */
  ghost predicate Spent(a: Moment, b: Moment) {
    Grown(a.payload, b.payload) && Consumed(a.remaining, b.remaining)
  }

  /** Between two moments no more slots have been placed in the archive, and no more clusters have
      become payload. */
  ghost predicate Uses(a: Moment, b: Moment, slots: nat, clusters: nat) {
    |b.log.slots| <= |a.log.slots| + slots && Size(b.payload) <= Size(a.payload) + clusters
  }

  ghost function Size(payload: map<nat, Cluster>): nat { |payload.Keys| }

  lemma UsesNothing(a: Moment)
    ensures forall slots: nat, clusters: nat {:trigger Uses(a, a, slots, clusters)} :: Uses(a, a, slots, clusters)
  {
  }

  lemma UsesMore(a: Moment, b: Moment, slots: nat, clusters: nat, slots2: nat, clusters2: nat)
    requires Uses(a, b, slots, clusters) && slots <= slots2 && clusters <= clusters2
    ensures Uses(a, b, slots2, clusters2)
  {
  }

  lemma UsesSame(a: Moment, b: Moment, c: Moment, slots: nat, clusters: nat)
    requires Uses(a, b, slots, clusters) && c.log == b.log && c.payload.Keys == b.payload.Keys
    ensures Uses(a, c, slots, clusters)
  {
  }

  lemma OneSlotMore(a: Moment, b: Moment, c: Moment, placed: bool)
    requires |b.log.slots| == |a.log.slots| && c.payload == b.payload == a.payload
    requires if placed then |c.log.slots| == |b.log.slots| + 1 else c.log == b.log
    ensures Uses(a, c, 1, 0)
  {
  }

  lemma SameSlots(a: Moment, b: Moment, c: Moment, slots: nat, clusters: nat)
    requires Uses(a, b, slots, clusters) && c.payload == b.payload && c.log.slots == b.log.slots
    ensures Uses(a, c, slots, clusters)
  {
  }

  lemma UsesTransitive(a: Moment, b: Moment, c: Moment, slots: nat, clusters: nat, slots2: nat, clusters2: nat)
    requires Uses(a, b, slots, clusters) && Uses(b, c, slots2, clusters2)
    ensures Uses(a, c, slots + slots2, clusters + clusters2)
  {
  }

  lemma MorePayload(payload: map<nat, Cluster>, more: map<nat, Cluster>, clusters: set<nat>, n: nat)
    requires (forall c :: c in more ==> c in clusters) && |clusters| <= n
    ensures Size(payload + more) <= Size(payload) + n
  {
    SubsetSize((payload + more).Keys - payload.Keys, clusters);
    assert (payload + more).Keys == payload.Keys + ((payload + more).Keys - payload.Keys);
  }

  /** The archive, too, has only grown. */
  ghost predicate Later(a: Moment, b: Moment) {
    Spent(a, b) && Grows(a.log, b.log)
  }

  lemma LaterTransitive(a: Moment, b: Moment, c: Moment)
    requires Later(a, b) && Spent(b, c)
    ensures Spent(a, c) && (Later(b, c) ==> Later(a, c))
    ensures c.remaining <= b.remaining <= a.remaining
    ensures a.payload.Keys <= b.payload.Keys <= c.payload.Keys
  {
    ConsumedTransitive(a.remaining, b.remaining, c.remaining);
  }

  lemma LaterSameLog(a: Moment, b: Moment)
    requires Grown(a.payload, b.payload) && Consumed(a.remaining, b.remaining) && a.log == b.log
    ensures Later(a, b)
  {
  }

  lemma LaterReflexive(a: Moment)
    ensures Later(a, a)
  {
  }

  /** Entries are only ever added. */
  ghost predicate Grown<T>(before: map<nat, T>, after: map<nat, T>) {
    forall c :: c in before ==> c in after && after[c] == before[c]
  }

  lemma GrownTransitive(a: map<nat, Cluster>, b: map<nat, Cluster>, c: map<nat, Cluster>)
    requires Grown(a, b) && Grown(b, c)
    ensures Grown(a, c)
  {
  }

  /** length clusters from dst on have become copies of those from src on. */
  ghost predicate Moved(before: map<nat, Cluster>, after: map<nat, Cluster>, dst: nat, src: nat, length: nat) {
    && after.Keys == before.Keys
    && (forall c {:trigger after[c]} :: dst <= c < dst + length && c in after ==>
          src + (c - dst) in before && after[c] == before[src + (c - dst)])
    && (forall c {:trigger after[c]} :: !(dst <= c < dst + length) && c in after ==>
          after[c] == before[c])
  }

  class StreamArchiver {
    const vol: Volume
    var page: nat
    var offsetInPage: nat
    var elementIndex: nat
    var header: Addr

    ghost function Pos(): Position
      reads this
    {
      Position(page, offsetInPage, elementIndex, header)
    }

    /** The write stream stands behind everything written so far. */
    ghost predicate AtEnd()
      reads this, vol
    {
      AtEndOf(vol.log, Pos())
    }

    /** The write stream is where it belongs, some time after a given moment. */
    ghost predicate Ready(since: Moment)
      reads this, vol, vol.disk, vol.allocator, vol.allocator.bitmap
    {
      vol.Valid() && AtEnd() && Later(since, vol.Now())
    }

    /** init_stream_archiver, up to its first page */
    constructor (vol: Volume)
      ensures this.vol == vol
    {
      this.vol := vol;
      page, offsetInPage, elementIndex, header := 0, 0, 0, Addr(0, 0);
    }

    /** The cursor stands behind the last slot of the archive. */
    ghost predicate BehindLastSlot()
      reads this, vol
    {
      && |vol.log.pages| > 0 && |vol.log.slots| > 0
      && page == Last(vol.log.pages) && offsetInPage == Last(vol.log.slots).End()
    }

    /** The new page that iterateStreamArchiver allocates and links when inserting. */
    method AppendPage() returns (ok: bool)
      requires vol.Kept() && |vol.log.pages| > 0 && page == Last(vol.log.pages)
      modifies this`page, vol.disk, vol.allocator, vol.allocator.bitmap
      ensures vol.Intact()
      ensures ok <==> !vol.allocator.Full()
      ensures !ok ==> vol.allocator.Remaining() == old(vol.allocator.Remaining()) == {}
      ensures ok ==>
                && page in old(vol.allocator.Remaining())
                && vol.allocator.Remaining() == old(vol.allocator.Remaining()) - {page}
                && Consumed(old(vol.allocator.Remaining()), vol.allocator.Remaining())
                && FAT_START_INDEX <= page < vol.disk.Length
                && old(page) < vol.disk.Length && old(vol.disk[page]).Page?
                && vol.disk[..] == WithPage(old(vol.disk[..]), old(page), page)
    {
      LastPage(vol.disk[..], vol.log, vol.pageSize);
      hide Stored;
      var p := vol.AllocatePage();
      if p.None? { return false; }
      vol.disk[page] := vol.disk[page].(next := p.value);
      page := p.value;
      vol.disk[page] := Page(0, map[]);
      return true;
    }

    /** The end of iterateStreamArchiver when inserting: place elementLength bytes. */
    method Place(elementLength: nat, ghost content: Content) returns (r: Option<Addr>)
      requires vol.Kept() && BehindLastSlot()
      requires content == Head(None) || (content.Element? && content.item.Reserved?)
      requires content.Size() == elementLength && 0 < elementLength <= DENTRY_SIZE
      modifies this`page, this`offsetInPage, vol, vol.disk, vol.allocator, vol.allocator.bitmap
      ensures vol.Intact() && vol.payload == old(vol.payload)
      ensures Consumed(old(vol.allocator.Remaining()), vol.allocator.Remaining())
      ensures r.None? <==> vol.allocator.Full()
      ensures r.None? ==>
                && vol.allocator.Remaining() == {} && vol.log == old(vol.log)
                && vol.Accounted() && Filled(vol.log, vol.pageSize)
      ensures r.Some? ==>
                && vol.Kept() && BehindLastSlot()
                && OneMoreSlot(old(vol.log), vol.log, content)
                && r.value == AddrOf(Last(vol.log.slots), vol.log.pages)
    {
      hide Stored, ExtentAllocator.Valid, WithPage;
      ghost var view, remaining := vol.disk[..], vol.allocator.Remaining();
      LastPage(view, vol.log, vol.pageSize);
      var offset := offsetInPage;
      if offsetInPage + elementLength > vol.pageSize {
        StoredIsFilled(view, vol.log, vol.pageSize);
        var ok := AppendPage();
        if !ok { return None; }
        offset := PAGE_LINK_SIZE;
      }
      offsetInPage := offset + elementLength;
      vol.RecordSlot(content, page, view, remaining);
      return Some(Addr(page, offset));
    }

    /** iterateStreamArchiver(stream, true, elementLength): room for one more element of the
        open segment. */
    method Reserve(elementLength: nat) returns (r: Option<Addr>)
      requires vol.Valid() && AtEnd()
      requires 0 < elementLength <= DENTRY_SIZE
      modifies this, vol, vol.disk, vol.allocator, vol.allocator.bitmap
      ensures vol.payload == old(vol.payload) && Uses(old(vol.Now()), vol.Now(), 1, 0)
      ensures r.None? ==> vol.GaveUp(old(vol.Now()))
      ensures r.Some? ==>
                && Ready(old(vol.Now())) && |old(vol.log.segs)| > 0
                && vol.log.segs == WithElement(old(vol.log), Reserved(elementLength)).segs
                && AddressOf(vol.log, |vol.log.segs| - 1, |Last(vol.log.segs)| - 1, r.value)
    {
      hide Stored, LayoutOk, ExtentAllocator.Valid, Complete, Grows, Consumed, AddressOf;
      ghost var view, log, pos := vol.disk[..], vol.log, Pos();
      EndIsLastSlot(view, log, vol.pageSize, pos);
      elementIndex := elementIndex + 1;
      r := Place(elementLength, Element(Reserved(elementLength)));
      if r.None? { return; }
      WithElementGrows(view, log, vol.log, Reserved(elementLength), vol.pageSize, pos);
      vol.log := WithElement(vol.log, Reserved(elementLength));
    }

    /** cutStreamArchiver: close the open segment and open the next. */
    method Cut() returns (ok: bool)
      requires vol.Valid() && AtEnd()
      modifies this, vol, vol.disk, vol.allocator, vol.allocator.bitmap
      ensures vol.payload == old(vol.payload) && Uses(old(vol.Now()), vol.Now(), 1, 0)
      ensures !ok ==> vol.GaveUp(old(vol.Now()))
      ensures ok ==>
                && Ready(old(vol.Now()))
                && vol.log.segs == old(vol.log.segs) + [[]]
    {
      hide Stored, LayoutOk, ExtentAllocator.Valid, ExtentAllocator.Remaining, Complete, Grows, Consumed, AddressOf,
           Filled, Size, Uses;
      ghost var view, log, pos := vol.disk[..], vol.log, Pos();
      EndIsLastSlot(view, log, vol.pageSize, pos);
      HeadOfEnd(view, log, vol.pageSize, pos);
      vol.WriteCell(header, HeaderCell(elementIndex), Last(log.heads), Head(Some(elementIndex)));
      elementIndex := 0;
      ghost var mid := vol.Now();
      var r := Place(HEADER_SIZE, Head(None));
      OneSlotMore(old(vol.Now()), mid, vol.Now(), r.Some?);
      if r.None? { return false; }
      header := r.value;
      WithCutGrows(view, log, vol.log, vol.pageSize, pos);
      ghost var placed := vol.Now();
      vol.log := WithCut(vol.log);
      SameSlots(old(vol.Now()), placed, vol.Now(), 1, 0);
      return true;
    }

    /** cutStreamArchiver on a stream without a header: the first page and header. */
    method Open() returns (ok: bool)
      requires vol.Intact() && !vol.allocator.Full() && vol.log.pages == [] && vol.Accounted()
      modifies this, vol`log, vol.disk, vol.allocator, vol.allocator.bitmap
      ensures vol.Intact()
      ensures ok <==> !vol.allocator.Full()
      ensures !ok ==> vol.allocator.Remaining() == {} && vol.Accounted()
      ensures Uses(old(vol.Now()), vol.Now(), 1, 0) && Filled(vol.log, vol.pageSize)
      ensures ok ==> vol.Valid() && AtEnd() && vol.log.segs == [[]]
      ensures ok ==> Consumed(old(vol.allocator.Remaining()), vol.allocator.Remaining())
    {
      hide ExtentAllocator.Valid, Stored, Complete;
      var p := vol.AllocatePage();
      if p.None? { return false; }
      page := p.value;
      vol.disk[page] := Page(0, map[]);
      elementIndex := 0;
      header := Addr(page, PAGE_LINK_SIZE);
      offsetInPage := PAGE_LINK_SIZE + HEADER_SIZE;
      FirstHeader(vol.disk[..], page, vol.pageSize);
      vol.log := Log([page], [Slot(0, PAGE_LINK_SIZE, Head(None))], [0], [[]]);
      return true;
    }

    /** The copy of a StreamArchiver: a cursor of its own at the same place. */
    constructor CopyOf(stream: StreamArchiver)
      ensures vol == stream.vol && Pos() == stream.Pos()
    {
      vol := stream.vol;
      page, offsetInPage := stream.page, stream.offsetInPage;
      elementIndex, header := stream.elementIndex, stream.header;
    }

    /** The end of iterateStreamArchiver when reading: step over elementLength bytes. */
    method Step(elementLength: nat, ghost s: nat, ghost k: nat, ghost pos: Position) returns (addr: Addr)
      requires ArchiveOk(vol.disk[..], vol.log, vol.pageSize)
      requires CursorAt(vol.log, pos, s, k) && page == pos.page && offsetInPage == pos.offsetInPage
      requires vol.log.heads[s] + k + 1 < |vol.log.slots|
      requires elementLength == vol.log.slots[vol.log.heads[s] + k + 1].content.Size()
      modifies this`page, this`offsetInPage
      ensures var next := vol.log.slots[vol.log.heads[s] + k + 1];
              && next.page < |vol.log.pages|
              && addr == AddrOf(next, vol.log.pages)
              && page == addr.page && offsetInPage == next.End()
    {
      SlotAfterCursor(vol.disk[..], vol.log, vol.pageSize, pos, s, k);
      hide ArchiveOk;
      var offset := offsetInPage;
      if offsetInPage + elementLength > vol.pageSize {
        page := vol.disk[page].next;
        offset := PAGE_LINK_SIZE;
      }
      offsetInPage := offset + elementLength;
      return Addr(page, offset);
    }

    /** iterateStreamArchiver(stream, false, elementLength), getNext: the next element of the
        segment, or NULL at its cut, which also moves to the next segment. */
    method GetNext(elementLength: nat, ghost s: nat, ghost k: nat) returns (r: Option<Addr>)
      requires ArchiveOk(vol.disk[..], vol.log, vol.pageSize)
      requires CursorAt(vol.log, Pos(), s, k) && s < |vol.log.segs| - 1
      requires k < |vol.log.segs[s]| ==> elementLength == SizeOf(vol.log.segs[s][k])
      modifies this
      ensures k < |vol.log.segs[s]| ==>
                && r.Some? && AddressOf(vol.log, s, k, r.value)
                && CursorAt(vol.log, Pos(), s, k + 1)
      ensures k == |vol.log.segs[s]| ==> r.None? && CursorAt(vol.log, Pos(), s + 1, 0)
    {
      hide ArchiveOk, CursorAt, AddressOf;
      ghost var view, log, pos := vol.disk[..], vol.log, Pos();
      HeaderOfCursor(view, log, vol.pageSize, pos, s, k);
      ElementAfterCursor(view, log, vol.pageSize, pos, s, k);
      CursorAfterStep(view, log, vol.pageSize, pos, s, k);
      elementIndex := elementIndex + 1;
      if elementIndex > vol.disk[header.page].cells[header.offset].elementCount {
        elementIndex := 0;
        header := Step(HEADER_SIZE, s, k, pos);
        return None;
      }
      var addr := Step(elementLength, s, k, pos);
      return Some(addr);
    }
  }
}
