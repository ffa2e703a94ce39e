/** The conversion as a whole (ofs-convert.cpp). */
module Conversion {
  import opened Aggregator
  import opened Allocator
  import opened Archive
  import opened Archiver
  import opened BlockGroups
  import opened Builder
  import opened Dentry
  import opened Disk
  import opened DirBlocks
  import opened Ext4
  import opened Ext4Tree
  import opened ExtentTree
  import opened Extents
  import opened Fat
  import opened FatReading
  import opened FatRecord
  import opened FatTree
  import opened Geometry
  import opened Payload
  import opened StreamWriter
  import opened Traverse
  import opened Tree
  import opened Util

  // --- Phase one -----------------------------------------------------------------------

  /** aggregate_extents for the root directory, then traverse. */
  method ReadMetadata(vol: Volume, fat: seq<nat>, dpc: nat, rootClusterNo: nat, ghost rootChain: seq<nat>,
                      ghost children: seq<FatEntry>, ghost initial: map<nat, Cluster>)
    returns (ok: bool, readStream: StreamArchiver, ghost rootPlace: seq<Extent>, ghost out: seq<MovedEntry>)
    requires vol.Intact() && !vol.allocator.Full() && vol.log == Log([], [], [], []) && vol.Accounted()
    requires 0 < dpc && Grown(initial, vol.payload)
    requires rootClusterNo < |fat| && IsChain(fat, vol.allocator.clusterCount, rootClusterNo, rootChain)
    requires forall c :: c in rootChain ==> c in initial
    requires Represents(fat, vol.allocator.clusterCount, dpc, initial, rootChain, children)
    modifies vol, vol.disk, vol.allocator, vol.allocator.bitmap
    ensures fresh(readStream) && readStream.vol == vol
    ensures !ok ==> vol.Intact() && vol.allocator.Remaining() == {} && Grown(old(vol.payload), vol.payload)
    ensures |old(vol.allocator.Remaining())|
            <= |vol.allocator.Remaining()|
               + ClustersForArchive(vol.pageSize, vol.allocator.blocked, rootChain, children)
    ensures ok ==>
              && vol.Valid() && Grown(old(vol.payload), vol.payload)
              && vol.log.segs == [ExtentItems(rootPlace)] + EncodeDir(out) + [[]]
              && CursorAt(vol.log, readStream.Pos(), 0, 0)
              && Tiled(rootPlace, 0) && |Clusters(rootPlace)| == |rootChain| && SameShape(children, out)
              && Relocated(vol.allocator.blocked, vol.payload, old(vol.allocator.Remaining()),
                           vol.allocator.Remaining(),
                           rootChain + Flat(children), Clusters(rootPlace) + Places(out))
  {
    hide ArchiveOk, Relocated, Clusters, Tiled, IsChain, Represents, SameShape, Flat, Places, EncodeDir, Stored,
         Complete, ExtentAllocator.Valid,
         Grows, Image, Consumed, Volume.GaveUp, Later, CursorAt, Uses, Filled, Volume.Accounted, ClustersForArchive,
         Moving, Slots;
    ghost var m0, payload0, start := vol.allocator.Remaining(), vol.payload, vol.Now();
    ghost var slots, moving := |rootChain| + 3 + Slots(children),
                               Moving(vol.allocator.blocked, rootChain + Flat(children));
    vol.AllocatableAhead();
    var w := new StreamArchiver(vol);
    readStream, rootPlace, out := w, [], [];
    ok := w.Open();
    if !ok {
      UsesMore(start, vol.Now(), 1, 0, 1 + slots, moving);
      ArchiveFits(vol, start, rootChain, children);
      return;
    }
    ghost var since := vol.Now();
    LaterReflexive(since);
    ConsumedSubset(m0, since.remaining);
    EndIsStart(vol.log, w.Pos());
    readStream := new StreamArchiver.CopyOf(w);
    ghost var pos := w.Pos();
    ok, rootPlace, out := ReadTree(w, fat, dpc, rootClusterNo, since, rootChain, children, initial);
    UsesTransitive(start, since, vol.Now(), 1, 0, slots, moving);
    KeptIsAccounted(vol, ok, since);
    ArchiveFits(vol, start, rootChain, children);
    if !ok {
      GaveUpLosesNothing(vol, since, payload0);
      return;
    }
    ghost var m2 := vol.Now();
    LaterParts(since, m2);
    CursorStable(since.log, m2.log, pos, 0, 0);
    RelocatedWiden(vol.allocator.blocked, m2.payload, since.remaining, m0, m2.remaining, rootChain + Flat(children),
                   Clusters(rootPlace) + Places(out));
  }

  /** As many free clusters are always enough for phase one: pages for all slots of the archive, filled
      one after the other, and a new place for every cluster that lies where a block group header
      comes. */
  ghost function ClustersForArchive(pageSize: nat, blocked: seq<Extent>, rootChain: seq<nat>,
                                    children: seq<FatEntry>): nat
    requires PAGE_LINK_SIZE + DENTRY_SIZE <= pageSize
  {
    1 + Quotient(|rootChain| + 4 + Slots(children), SlotsPerPage(pageSize))
    + Moving(blocked, rootChain + Flat(children))
  }

  lemma KeptIsAccounted(vol: Volume, ok: bool, since: Moment)
    requires if ok then vol.Valid() && Later(since, vol.Now()) else vol.GaveUp(since)
    ensures vol.Intact() && vol.Accounted() && Filled(vol.log, vol.pageSize) && Grown(since.payload, vol.payload)
  {
    hide Stored, Complete, ExtentAllocator.Valid, Filled, Grows, Consumed;
    if ok { StoredIsFilled(vol.disk[..], vol.log, vol.pageSize); }
  }

  /** The clusters that have been available at the start are available still, pages, or payload. */
  lemma ArchiveFits(vol: Volume, start: Moment, rootChain: seq<nat>, children: seq<FatEntry>)
    requires vol.Intact() && vol.Accounted() && Filled(vol.log, vol.pageSize)
    requires start.log.slots == [] && start.remaining <= vol.allocator.allocatable
    requires start.remaining !! start.payload.Keys && Grown(start.payload, vol.payload)
    requires Uses(start, vol.Now(), 1 + (|rootChain| + 3 + Slots(children)),
                  Moving(vol.allocator.blocked, rootChain + Flat(children)))
    ensures |start.remaining|
            <= |vol.allocator.Remaining()|
               + ClustersForArchive(vol.pageSize, vol.allocator.blocked, rootChain, children)
  {
    hide ExtentAllocator.Valid, ExtentAllocator.Remaining, Moving, Slots, SlotsPerPage, Quotient, Flat;
    PagesFor(vol.log, vol.pageSize, |rootChain| + 4 + Slots(children));
    AccountedFor(start.remaining, vol.allocator.Remaining(), vol.log.pages, start.payload.Keys, vol.payload.Keys);
  }

  lemma PagesFor(log: Log, pageSize: nat, slots: nat)
    requires PAGE_LINK_SIZE + DENTRY_SIZE <= pageSize && Filled(log, pageSize) && |log.slots| <= slots
    ensures 0 < SlotsPerPage(pageSize) && |log.pages| <= 1 + Quotient(slots, SlotsPerPage(pageSize))
  {
    hide SlotsPerPage, Quotient;
    RoomInPage(pageSize);
    var k := SlotsPerPage(pageSize);
    QuotientBounds(slots, k);
    if |log.pages| > 1 + Quotient(slots, k) {
      MulMonotone(k, Quotient(slots, k) + 1, |log.pages| - 1);
      NextMultiple(k, Quotient(slots, k));
    }
  }

  lemma AccountedFor(before: set<nat>, after: set<nat>, pages: seq<nat>, payload: set<nat>, payload': set<nat>)
    requires forall c :: c in before ==> c in after || c in pages || c in payload'
    requires before !! payload && payload <= payload'
    ensures |before| <= |after| + |pages| + |payload'| - |payload|
  {
    var inPages := SetOf(pages);
    SetOfSize(pages);
    SubsetSize(before, after + inPages + (payload' - payload));
    UnionSize(after, inPages);
    UnionSize(after + inPages, payload' - payload);
    assert payload' == payload + (payload' - payload);
  }

  lemma UnionSize(a: set<nat>, b: set<nat>)
    ensures |a + b| <= |a| + |b|
  {
    assert a + b == a + (b - a);
    SubsetSize(b - a, b);
  }

  lemma {:induction false} SetOfSize(s: seq<nat>)
    ensures |SetOf(s)| <= |s|
  {
    if s != [] {
      SetOfSize(s[..|s| - 1]);
      assert SetOf(s) == SetOf(s[..|s| - 1]) + {Last(s)};
    }
  }

  lemma ConsumedSubset(before: set<nat>, after: set<nat>)
    requires Consumed(before, after)
    ensures after <= before
  {
  }

  lemma EndIsStart(log: Log, pos: Position)
    requires AtEndOf(log, pos) && log.segs == [[]]
    ensures CursorAt(log, pos, 0, 0)
  {
  }

  lemma LaterParts(a: Moment, b: Moment)
    requires Later(a, b)
    ensures Grows(a.log, b.log) && Grown(a.payload, b.payload)
  {
  }

  lemma GaveUpLosesNothing(vol: Volume, since: Moment, payload0: map<nat, Cluster>)
    requires vol.GaveUp(since) && since.payload == payload0
    ensures vol.Intact() && vol.allocator.Remaining() == {} && Grown(payload0, vol.payload)
  {
  }

  /** The same with the archive open and empty. */
  method ReadTree(w: StreamArchiver, fat: seq<nat>, dpc: nat, rootClusterNo: nat, ghost since: Moment,
                  ghost rootChain: seq<nat>,
                  ghost children: seq<FatEntry>, ghost initial: map<nat, Cluster>)
    returns (ok: bool, ghost rootPlace: seq<Extent>, ghost out: seq<MovedEntry>)
    requires w.vol.Valid() && w.AtEnd() && since == w.vol.Now() && w.vol.log.segs == [[]]
    requires 0 < dpc && Grown(initial, w.vol.payload)
    requires rootClusterNo < |fat| && IsChain(fat, w.vol.allocator.clusterCount, rootClusterNo, rootChain)
    requires forall c :: c in rootChain ==> c in initial
    requires Represents(fat, w.vol.allocator.clusterCount, dpc, initial, rootChain, children)
    modifies w, w.vol, w.vol.disk, w.vol.allocator, w.vol.allocator.bitmap
    ensures !ok ==> w.vol.GaveUp(since)
    ensures Uses(since, w.vol.Now(), |rootChain| + 3 + Slots(children),
                 Moving(w.vol.allocator.blocked, rootChain + Flat(children)))
    ensures ok ==>
              && w.vol.Valid() && Later(since, w.vol.Now())
              && w.vol.log.segs == [ExtentItems(rootPlace)] + EncodeDir(out) + [[]]
              && Tiled(rootPlace, 0) && |Clusters(rootPlace)| == |rootChain| && SameShape(children, out)
              && Relocated(w.vol.allocator.blocked, w.vol.payload, since.remaining, w.vol.allocator.Remaining(),
                           rootChain + Flat(children), Clusters(rootPlace) + Places(out))
  {
    hide ArchiveOk, Relocated, Clusters, Tiled, IsChain, Represents, SameShape, Flat, Places, EncodeDir, Stored,
         Complete, ExtentAllocator.Valid,
         Grows, Image, Consumed, Volume.GaveUp, Volume.Valid, AtEndOf, CursorAt, Later, Uses, Moving, Slots;
    ghost var blocked := w.vol.allocator.blocked;
    LaterReflexive(since);
    ConsumedReflexive(since.remaining);
    assert [] + [] + [[]] == w.vol.log.segs;
    var extentStream;
    out := [];
    ok, extentStream, rootPlace := TraversePlace(w, fat, rootClusterNo, since, [], rootChain, initial);
    MovingAppend(blocked, rootChain, Flat(children));
    UsesMore(since, w.vol.Now(), |rootChain| + 1, Moving(blocked, rootChain), |rootChain| + 3 + Slots(children),
             Moving(blocked, rootChain + Flat(children)));
    if !ok { return; }
    ghost var m1, base := w.vol.Now(), [ExtentItems(rootPlace)];
    assert base + [] == base && [] + base == base;
    WrittenRebase(w, since, [], base, []);
    ok, out := TraverseDir(extentStream, w, fat, dpc, since, base, 0, rootPlace, rootChain, children, initial);
    UsesTransitive(since, m1, w.vol.Now(), |rootChain| + 1, Moving(blocked, rootChain), 2 + Slots(children),
                   Moving(blocked, Flat(children)));
    if !ok { return; }
    WrittenIsValid(w, since, base, EncodeDir(out));
    RunRelocated(w.vol.allocator.blocked, since.remaining, since, m1, w.vol.Now(), rootChain, Clusters(rootPlace),
                 Flat(children), Places(out));
  }

  lemma ConsumedReflexive(remaining: set<nat>)
    ensures Consumed(remaining, remaining)
  {
  }

  lemma RunRelocated(blocked: seq<Extent>, remaining: set<nat>, m0: Moment, m1: Moment, m2: Moment,
                     src1: seq<nat>, dst1: seq<nat>, src2: seq<nat>, dst2: seq<nat>)
    requires Consumed(remaining, m0.remaining) && Later(m0, m1) && Later(m1, m2)
    requires Relocated(blocked, m1.payload, m0.remaining, m1.remaining, src1, dst1)
    requires Relocated(blocked, m2.payload, m1.remaining, m2.remaining, src2, dst2)
    ensures Relocated(blocked, m2.payload, remaining, m2.remaining, src1 + src2, dst1 + dst2)
  {
    hide Relocated, Grows;
    RelocatedGrows(blocked, m1.payload, m2.payload, m0.remaining, m1.remaining, m1.remaining, src1, dst1);
    RelocatedAppend(blocked, m2.payload, m0.remaining, m1.remaining, m2.remaining, src1, dst1, src2, dst2);
    RelocatedWiden(blocked, m2.payload, m0.remaining, remaining, m2.remaining, src1 + src2, dst1 + dst2);
  }

  // --- The FAT volume ------------------------------------------------------------------

  /** The contents of the clusters in use. */
  ghost function Used(fat: seq<nat>, view: seq<Cluster>): map<nat, Cluster> {
    map c: nat | 2 <= c < |view| && c < |fat| && fat[c] % 0x1000_0000 != 0 :: view[c]
  }

  /** A sound FAT volume with the directory tree entries: the chains are in range, end, and share
      no cluster; the high four bits of the file allocation table are zero. */
  ghost predicate FatVolume(g: Geo, fat: seq<nat>, view: seq<Cluster>, dpc: nat, rootClusterNo: nat,
                            rootChain: seq<nat>, entries: seq<FatEntry>)
  {
    && g.Valid() && g.blockSize <= 32768 && dpc == g.blockSize / 32
    && |view| == g.DataClusterCount() <= |fat|
    && (forall c :: 0 <= c < |fat| ==> fat[c] < 0x1000_0000)
    && rootClusterNo < |fat| && IsFatChain(fat, |view|, rootClusterNo, rootChain)
    && IsFatTree(fat, |view|, dpc, Used(fat, view), rootChain, entries)
    && Distinct(rootChain + Flat(entries))
  }

  /** The program finds its way through the volume, and takes its tree to be children. */
  ghost predicate ReadAs(fat: seq<nat>, view: seq<Cluster>, dpc: nat, rootChain: seq<nat>, children: seq<FatEntry>) {
    && Represents(fat, |view|, dpc, Used(fat, view), rootChain, children)
    && Distinct(rootChain + Flat(children))
  }

  /** With nothing stray in the tree it does, and takes the tree for what it is. */
  lemma SoundVolumeIsRead(g: Geo, fat: seq<nat>, view: seq<Cluster>, dpc: nat, rootClusterNo: nat,
                          rootChain: seq<nat>, entries: seq<FatEntry>)
    requires FatVolume(g, fat, view, dpc, rootClusterNo, rootChain, entries)
    requires NoStrayInTree(Used(fat, view), rootChain, entries)
    ensures ReadAs(fat, view, dpc, rootChain, entries)
  {
    hide Geo.Valid, IsFatTree, Represents, NoStrayInTree, Used, IsChain;
    TreeReadRight(fat, |view|, dpc, Used(fat, view), rootChain, entries);
  }

  lemma ChainIsUsed(fat: seq<nat>, view: seq<Cluster>, first: nat, chain: seq<nat>)
    requires |view| <= |fat| && IsChain(fat, |view|, first, chain)
    requires forall c :: 0 <= c < |fat| ==> fat[c] < CLUSTER_ENTRY_LIMIT
    ensures forall c :: c in chain ==> c in Used(fat, view) && FAT_START_INDEX <= c
  {
    forall i | 0 <= i < |chain| ensures chain[i] in Used(fat, view) && FAT_START_INDEX <= chain[i] {
      NextInChain(fat, |view|, first, chain, i);
      assert fat[chain[i]] < CLUSTER_ENTRY_LIMIT;
    }
  }

  lemma {:induction false} TreeIsUsed(fat: seq<nat>, view: seq<Cluster>, dpc: nat, es: seq<FatEntry>)
    requires |view| <= |fat| && forall c :: 0 <= c < |fat| ==> fat[c] < CLUSTER_ENTRY_LIMIT
    requires forall i :: 0 <= i < |es| ==> RepresentsEntry(fat, |view|, dpc, Used(fat, view), es[i])
    ensures forall c :: c in Flat(es) ==> c in Used(fat, view) && FAT_START_INDEX <= c
    decreases es
  {
    hide Used, Parse, Live;
    if es != [] {
      var init, e := es[..|es| - 1], Last(es);
      TreeIsUsed(fat, view, dpc, init);
      assert RepresentsEntry(fat, |view|, dpc, Used(fat, view), e);
      ChainIsUsed(fat, view, ClusterNo(e.record), e.place);
      TreeIsUsed(fat, view, dpc, e.children);
      forall c | c in Flat(es) ensures c in Used(fat, view) && FAT_START_INDEX <= c {
        assert c in Flat(init) || c in FlatEntry(e);
        assert c in FlatEntry(e) ==> c in e.place || c in Flat(e.children);
      }
    }
  }

  /** What phase one writes about the tree is what phase two expects. */
  lemma {:induction false} TreeIsTidy(fat: seq<nat>, view: seq<Cluster>, dpc: nat, content: map<nat, Cluster>,
                                      es: seq<FatEntry>, out: seq<MovedEntry>)
    requires SameShape(es, out)
    requires forall i :: 0 <= i < |es| ==> RepresentsEntry(fat, |view|, dpc, content, es[i])
    ensures Tidy(out)
    decreases es
  {
    hide Parse, Live, Tiled, Clusters;
    forall i | 0 <= i < |out|
      ensures Tiled(out[i].place, 0) && (!IsDir(out[i].record) ==> out[i].children == []) && Tidy(out[i].children)
    {
      assert RepresentsEntry(fat, |view|, dpc, content, es[i]);
      TreeIsTidy(fat, view, dpc, content, es[i].children, out[i].children);
    }
  }

  function EmptyRecord(): Record { seq(32, _ => 0) }

  /** A volume with an empty root directory is sound, and read as it is: what is asked of a volume
      can be met. */
  lemma EmptyVolumeIsSound(fat: seq<nat>, view: seq<Cluster>)
    requires |fat| == |view| == 8902
    requires fat[2] == 0x0FFF_FFFF && forall c :: 0 <= c < |fat| && c != 2 ==> fat[c] == 0
    requires view[2] == Data(seq(32, _ => EmptyRecord()))
    ensures FatVolume(Geo(1024, 9000, 100), fat, view, 32, 2, [2], [])
    ensures ReadAs(fat, view, 32, [2], [])
  {
    hide Geo.Valid, FatEntries, NoStray, RecordsOf;
    SmallGeometry();
    var used := Used(fat, view);
    assert used[2] == view[2];
    RootRecords(used);
    var records := view[2].records;
    assert records[0] == EmptyRecord();
    NothingListed(records);
    assert [2] + Flat([]) == [2];
    SoundVolumeIsRead(Geo(1024, 9000, 100), fat, view, 32, 2, [2], []);
  }

  lemma NothingListed(records: seq<Record>)
    requires records != [] && IsEnd(records[0])
    ensures FatEntries(records) == [] && NoStray(records)
  {
  }

  lemma SmallGeometry()
    ensures Geo(1024, 9000, 100).Valid() && Geo(1024, 9000, 100).DataClusterCount() == 8902
  {
  }

  lemma RootRecords(content: map<nat, Cluster>)
    requires 2 in content && content[2].Data?
    ensures RecordsOf(content, [2]) == content[2].records
    ensures DirClusters(content, [2], |content[2].records|)
  {
    assert [2][1..] == [] && RecordsOf(content, []) == [];
  }

  /** A sound volume with a read-only file A and a file B that the program reads as one file B,
      whose name is made of A's record. */
  lemma ReadOnlyFileIsMissed(fat: seq<nat>, view: seq<Cluster>)
    returns (entries: seq<FatEntry>, children: seq<FatEntry>)
    requires |fat| == |view| == 8902
    requires fat[2] == fat[3] == fat[4] == 0x0FFF_FFFF && forall c :: 0 <= c < |fat| && !(2 <= c <= 4) ==> fat[c] == 0
    requires view[2] == Data([OneLetter(0x41, 0x21, 3), OneLetter(0x42, 0x20, 4)] + seq(30, _ => EmptyRecord()))
    ensures FatVolume(Geo(1024, 9000, 100), fat, view, 32, 2, [2], entries)
    ensures ReadAs(fat, view, 32, [2], children)
    ensures IsRegularTree(Used(fat, view), [2], entries) && !NoStrayInTree(Used(fat, view), [2], entries)
    ensures 3 in Flat(entries) && 3 !in [2] + Flat(children)
  {
    hide Geo.Valid, FatEntries, Parse, Live, NoStray, IsRegular, RecordsOf, LfnUnits, ShortName, OneLetter, IsFatTree,
         Represents, IsRegularTree, NoStrayInTree, Flat, FirstCluster, IsFolder;
    SmallGeometry();
    var a, b, rest := OneLetter(0x41, 0x21, 3), OneLetter(0x42, 0x20, 4), seq(30, _ => EmptyRecord());
    entries := [Entry(a, [[0x41, 0]], [3], []), Entry(b, [[0x42, 0]], [4], [])];
    children := [Entry(b, [LfnUnits(a)], [4], [])];
    var used := Used(fat, view);
    assert used[2] == view[2] && 3 in used && 4 in used;
    RootRecords(used);
    assert rest[0] == EmptyRecord();
    ReadOnlyFileIsLost(rest);
    PlainFile(0x41, 0x21, 3);
    PlainFile(0x42, 0x20, 4);
    FlatOfFiles(entries);
    FlatOfFiles(children);
    FilesInRoot(fat, |view|, used, entries, children);
    TreeReadRightIffNoStray(fat, |view|, 32, used, [2], entries, children);
  }

  lemma PlainFile(letter: Byte, attrs: Byte, cluster: Byte)
    requires attrs == 0x20 || attrs == 0x21
    ensures var r := OneLetter(letter, attrs, cluster); FirstCluster(r) == cluster as int && !IsFolder(r)
  {
  }

  /** A root directory with nothing but files in it. */
  lemma FilesInRoot(fat: seq<nat>, clusterCount: nat, content: map<nat, Cluster>, entries: seq<FatEntry>,
                    children: seq<FatEntry>)
    requires 2 in content && DirClusters(content, [2], 32) && 4 < clusterCount <= |fat|
    requires forall e :: e in entries + children ==>
               && !IsFolder(e.record) && e.children == [] && 2 <= FirstCluster(e.record) < |fat|
               && e.place == [FirstCluster(e.record)] && FirstCluster(e.record) in content
               && FirstCluster(e.record) < clusterCount
               && FirstCluster(e.record) <= 4 && 0x0FFF_FFF8 <= fat[FirstCluster(e.record)]
    requires FatEntries(RecordsOf(content, [2]))
             == seq(|entries|, i requires 0 <= i < |entries| => RawEntry(entries[i].record, entries[i].name))
    requires Parse(Live(RecordsOf(content, [2])))
             == Entries(seq(|children|, i requires 0 <= i < |children| =>
                              RawEntry(children[i].record, children[i].name)))
    requires IsRegular(RecordsOf(content, [2]))
    ensures IsFatTree(fat, clusterCount, 32, content, [2], entries)
    ensures Represents(fat, clusterCount, 32, content, [2], children)
    ensures IsRegularTree(content, [2], entries)
  {
    hide FatEntries, Parse, Live, IsRegular, RecordsOf, ClusterNo, FirstCluster, IsDir, IsFolder, DirClusters;
    forall e | e in entries + children
      ensures IsFatTreeEntry(fat, clusterCount, 32, content, e) && RepresentsEntry(fat, clusterCount, 32, content, e)
    {
      NumbersRead(e.record);
      KindsRead(e.record);
    }
    assert forall i :: 0 <= i < |entries| ==> entries[i] in entries + children;
    assert forall i :: 0 <= i < |children| ==> children[i] in entries + children;
  }

  /** The clusters of one or two files. */
  lemma FlatOfFiles(es: seq<FatEntry>)
    requires 1 <= |es| <= 2 && forall i :: 0 <= i < |es| ==> es[i].children == []
    ensures Flat(es) == if |es| == 1 then es[0].place else es[0].place + es[1].place
  {
    assert Flat([]) == [] && es[..1][..0] == [];
    assert Flat(es[..1]) == es[0].place + [] == es[0].place;
    assert |es| == 2 ==> es[..1] + [es[1]] == es && Flat(es) == es[0].place + es[1].place;
    assert |es| == 1 ==> es[..1] == es;
  }

  // --- From phase one to phase two -----------------------------------------------------

  /** The relocated clusters wait for phase two, each once. */
  lemma PlacesWait(blocked: seq<Extent>, payload: map<nat, Cluster>, before: set<nat>, after: set<nat>,
                   src: seq<nat>, dst: seq<nat>, s: State)
    requires Relocated(blocked, payload, before, after, src, dst) && Distinct(src)
    requires forall c :: c in src ==> c !in before && FAT_START_INDEX <= c
    requires forall c :: c in before ==> FAT_START_INDEX <= c
    requires s.payload == Unblocked(blocked, payload) && s.registered == {}
    ensures Waiting(blocked, s, dst)
  {
    RelocatedInjective(blocked, payload, before, after, src, dst);
    forall i | 0 <= i < |dst|
      ensures FAT_START_INDEX <= dst[i] && dst[i] in s.payload && !InBlocked(blocked, dst[i])
    {
      assert src[i] in src;
    }
  }

  /** The contents of the files, as they stand between the two phases. */
  ghost function Protected(payload: map<nat, Cluster>, dirs: seq<nat>): map<nat, Cluster> {
    map c | c in payload && c !in dirs :: payload[c]
  }

  lemma FilesProtected(blocked: seq<Extent>, initial: map<nat, Cluster>, payload: map<nat, Cluster>, before: set<nat>,
                       after: set<nat>,
                       rootChain: seq<nat>, children: seq<FatEntry>, rootPlace: seq<nat>, out: seq<MovedEntry>,
                       s: State)
    requires Relocated(blocked, payload, before, after, rootChain + Flat(children), rootPlace + Places(out))
    requires |rootPlace| == |rootChain| && SameShape(children, out) && Grown(initial, payload)
    requires forall c :: c in rootChain + Flat(children) ==> c in initial && FAT_START_INDEX <= c
    requires forall c :: c in before ==> FAT_START_INDEX <= c
    requires s.payload == Unblocked(blocked, payload) && Waiting(blocked, s, rootPlace + Places(out))
    ensures FilesIntact(initial, Protected(s.payload, rootPlace + DirPlaces(out)), children, out)
  {
    hide Relocated, Flat, Places, FilePlaces, DirPlaces, Distinct, InBlocked, FilesIntact;
    RehomedImage(blocked, initial, payload, before, after, rootChain + Flat(children), rootPlace + Places(out));
    SameLength(children, out);
    ImageTail(initial, payload, rootChain, Flat(children), rootPlace, Places(out));
    FilesMoved(initial, payload, children, out);
    DistinctParts(rootPlace, Places(out));
    FilePlacesApart(out);
    forall c | c in FilePlaces(out) && c in payload
      ensures c in Protected(s.payload, rootPlace + DirPlaces(out))
      ensures Protected(s.payload, rootPlace + DirPlaces(out))[c] == payload[c]
    {
      assert c in rootPlace + Places(out);
    }
    FilesKept(initial, payload, Protected(s.payload, rootPlace + DirPlaces(out)), children, out);
  }

  lemma ImageTail(initial: map<nat, Cluster>, content: map<nat, Cluster>, a: seq<nat>, b: seq<nat>, a2: seq<nat>,
                  b2: seq<nat>)
    requires Image(initial, content, a + b, a2 + b2) && |a| == |a2| && |b| == |b2|
    ensures Image(initial, content, b, b2)
  {
    hide Image;
    assert a + b + [] == a + b;
    assert a2 + b2 + [] == a2 + b2;
    ImagePart(initial, content, a, b, [], a2, b2, []);
  }

  // --- The whole conversion ------------------------------------------------------------

  /** How the conversion ends. The program exits when it is Stopped. It does not notice when it is
      Derailed: an extent tree has lost its only index, the program goes on, and this model ends. */
  datatype Conversion =
    | Stopped(outcome: Outcome)
    | Derailed
    | Converted(freeBlocks: Halves, freeInodes: nat)

  /** The ext4 file system stands: readers find the root directory with all its children and
      lost+found, below it the tree of the FAT volume, and in every file its old contents; every
      registered cluster belongs to one of these inodes, and each owns just its contents and the
      block of its tree; the bitmaps and the counts show what is in use. For ext4 the root is inode 2,
      lost+found here 11, and 12 the first that any file can have. */
  ghost predicate TreeConverted(x: Ext4Volume, initial: map<nat, Cluster>, children: seq<FatEntry>,
                                out: seq<MovedEntry>)
    reads x, x.vol, x.vol.disk, x.vol.allocator, x.vol.allocator.bitmap, x.groups, x.groups.memory, x.groups.groupDescs
  {
    && x.Valid() && x.groups.g.Valid() && x.firstFreeInodeNo == 12 + EntryCount(out)
    && SameShape(children, out) && FilesIntact(initial, x.final, children, out)
    && 2 in x.sealed && 11 in x.sealed
    && x.owner.Keys == x.registered && (forall c :: c in x.owner ==> x.owner[c] in x.sealed)
    && IsDirectory(x.groups.g, x.final, Owned(x.Now(), 2), x.sealed[2],
                   ListingOf(2, 2, 12, out, |out|) + [LostFoundEntry()], 3 + SubdirCount(out))
    && IsDirectory(x.groups.g, x.final, Owned(x.Now(), 11), x.sealed[11], Dots(11, 2), 2)
    && TreeBuilt(x.groups.g, x.Now(), 12, 2, out, |out|)
  }

  /** The archive has been written and lies before the read stream; its directories' clusters
      may now be reused, everything else is protected. */
  ghost predicate BetweenPhases(x: Ext4Volume, read: StreamArchiver, initial: map<nat, Cluster>,
                                children: seq<FatEntry>,
                                rootPlace: seq<Extent>, out: seq<MovedEntry>)
    reads x, x.vol, x.vol.disk, x.vol.allocator, x.vol.allocator.bitmap, x.groups, x.groups.memory
    reads x.groups.groupDescs, read
  {
    && x.Valid() && x.groups.g.Valid() && read.vol == x.vol
    && x.inodes == map[] && x.sealed == map[] && x.firstFreeInodeNo == EXT4_FIRST_NON_RSV_INODE + 1
    && Ahead(x.vol.log, 0, [ExtentItems(rootPlace)] + EncodeDir(out)) && CursorAt(x.vol.log, read.Pos(), 0, 0)
    && Waiting(x.vol.allocator.blocked, x.Now(), Clusters(rootPlace) + Places(out))
    && NotFinal(x.final, Clusters(rootPlace) + DirPlaces(out)) && Tidy(out)
    && SameShape(children, out) && FilesIntact(initial, x.final, children, out)
  }

  /** build_ext4_root, build_ext4_metadata_tree, build_lost_found */
  method BuildTree(x: Ext4Volume, read: StreamArchiver, ghost initial: map<nat, Cluster>, ghost children: seq<FatEntry>,
                   ghost rootPlace: seq<Extent>, ghost out: seq<MovedEntry>)
    returns (outcome: Outcome)
    requires BetweenPhases(x, read, initial, children, rootPlace, out)
    modifies read, x, x.vol`payload, x.vol.disk, x.vol.allocator, x.vol.allocator.bitmap
    modifies x.groups`books, x.groups.memory, x.groups.groupDescs
    ensures !outcome.Done? ==> Failed(x, outcome, old(x.final))
    ensures Spending(old(x.Now()), x.Now(), outcome, 6, EntryCount(out))
    ensures outcome.Done? ==> TreeConverted(x, initial, children, out) && DirFits(x.groups.g, out, 1)
    ensures outcome.TreeOverflow? ==> !DirFits(x.groups.g, out, 1)
  {
    hide Ext4Volume.Valid, CursorAt, Geo.GroupsHoldMetadata, MetaExtents, Ahead, Waiting, Clusters, Places, DirPlaces,
         Tidy, Keeps, TreeBuilt,
         DirDone, ListingOf, SubdirCount, SameShape, FilesIntact, IsDirectory, Dots, EncodeDir, EntryFits,
         DirBlockCount,
         MaxEntries, Owned, Balanced, ExtentAllocator.Remaining, DataKept, NotFinal, Failed, Tiled, EntryBuilt, Frugal,
         Spending;
    ghost var s0 := x.Now();
    x.ValidIsBalanced();
    NothingOwned(x.groups.g, x.groups.books, s0, EXT4_ROOT_INODE);
    x.AddReservedInode(EXT4_ROOT_INODE, NewInode(true, 3));
    ghost var s1 := x.Now();
    OwnedSame(s0, s1, EXT4_ROOT_INODE);
    KeepsReflexive(s0, s1);
    WaitingSame(x.vol.allocator.blocked, s0, s1, Clusters(rootPlace) + Places(out));
    ghost var blocks, own := [], SetOf(Clusters(rootPlace) + Places(out));
    outcome, blocks := BuildDir(x, EXT4_ROOT_INODE, EXT4_ROOT_INODE, read, 0, rootPlace, out, 3);
    ghost var s2 := x.Now();
    DirSpending(s0, s1, s2, outcome, EntryCount(out));
    if !outcome.Done? { return; }
    ghost var items := ListingOf(EXT4_ROOT_INODE, EXT4_ROOT_INODE, EXT4_FIRST_NON_RSV_INODE + 1, out, |out|);
    DirDoneFrame(x.groups.g, x.vol.allocator.blocked, s1, s2, EXT4_ROOT_INODE, own, items, 3 + SubdirCount(out),
                 blocks);
    outcome := BuildLostFound(x, s1, own, items, 3 + SubdirCount(out), blocks);
    RootSpending(s0, s2, x.Now(), outcome, EntryCount(out));
    if !outcome.Done? {
      FailedSince(x, outcome, s1, s2);
      return;
    }
    KeepsTransitive(s1, s2, x.Now());
    TreeStable(x.groups.g, s2, x.Now(), EXT4_FIRST_NON_RSV_INODE + 1, EXT4_ROOT_INODE, out, |out|);
    FinalFilesKept(initial, s1, x.Now(), children, out);
    x.ValidIsBalanced();
    AllSealed(x.groups.g, x.groups.books, x.Now(), out);
  }

  lemma DirSpending(s0: State, s1: State, s2: State, outcome: Outcome, count: nat)
    requires s1.remaining == s0.remaining && s1.nextInode == s0.nextInode && Spending(s1, s2, outcome, 2, count)
    ensures Spending(s0, s2, outcome, 6, count)
    ensures Frugal(s0, s2, 2) && s2.nextInode <= s0.nextInode + count
  {
  }

  lemma RootSpending(s0: State, s2: State, s3: State, outcome: Outcome, count: nat)
    requires Frugal(s0, s2, 2) && s2.nextInode <= s0.nextInode + count && Spending(s2, s3, outcome, 4, 0)
    ensures Spending(s0, s3, outcome, 6, count)
  {
  }

  /** Every registered cluster belongs to a sealed inode. */
  lemma AllSealed(g: Geo, books: Books, s: State, out: seq<MovedEntry>)
    requires g.Valid() && Balanced(g, books, s) && Tidy(out)
    requires TreeBuilt(g, s, EXT4_FIRST_NON_RSV_INODE + 1, EXT4_ROOT_INODE, out, |out|)
    requires s.nextInode == EXT4_FIRST_NON_RSV_INODE + 1 + EntryCount(out)
    requires EXT4_ROOT_INODE in s.sealed && EXT4_LOST_FOUND_INODE in s.sealed
    requires forall k :: k in s.inodes ==>
               k == EXT4_ROOT_INODE || k == EXT4_LOST_FOUND_INODE || EXT4_FIRST_NON_RSV_INODE < k
    ensures s.owner.Keys == s.registered && forall c :: c in s.owner ==> s.owner[c] in s.sealed
  {
    hide Geo.GroupsHoldMetadata, TreeBuilt, Tidy, EntryCount, BlocksOf;
    assert out[..|out|] == out;
    TreeIsSealed(g, s, EXT4_FIRST_NON_RSV_INODE + 1, EXT4_ROOT_INODE, out, |out|);
  }

  lemma DirDoneFrame(g: Geo, blocked: seq<Extent>, s0: State, s: State, no: nat, own: set<nat>, items: seq<Listed>,
                     links: nat, blocks: seq<nat>)
    requires g.Valid() && DirDone(g, blocked, s0, s, no, own, items, links, blocks)
    ensures Keeps(s0, s) && s0.nextInode <= s.nextInode
    ensures forall k :: k in s.inodes && k !in s0.inodes ==> s0.nextInode <= k
  {
    hide Geo.GroupsHoldMetadata, Describes, Waiting, ReadDir;
  }

  lemma FinalFilesKept(initial: map<nat, Cluster>, s: State, t: State, children: seq<FatEntry>, out: seq<MovedEntry>)
    requires FilesIntact(initial, s.final, children, out) && SameShape(children, out) && Keeps(s, t)
    ensures FilesIntact(initial, t.final, children, out)
  {
    hide FilesIntact, SameShape, FilePlaces;
    FilesKept(initial, s.final, t.final, children, out);
  }

  /** init_extent_allocator, on extents that create_block_group_meta_extents has made. */
  method StartVolume(g: Geo, fat: seq<nat>, disk: array<Cluster>, extents: seq<Extent>) returns (vol: Volume)
    requires g.Valid() && MetaExtents(g, extents) && FAT_START_INDEX < g.DataClusterCount() == disk.Length <= |fat|
    ensures fresh(vol) && fresh(vol.allocator) && fresh(vol.allocator.bitmap) && vol.disk == disk
    ensures vol.pageSize == g.blockSize
    ensures vol.Intact() && !vol.allocator.Full() && vol.log == Log([], [], [], []) && vol.Accounted()
    ensures vol.allocator.Remaining() == vol.allocator.allocatable
    ensures vol.allocator.blocked == extents && vol.allocator.clusterCount == g.DataClusterCount()
    ensures vol.allocator.allocatable == Allocatable(fat, g, extents)
    ensures Grown(Used(fat, disk[..]), vol.payload) && HeadersIn(extents, g.DataClusterCount(), vol.payload)
    ensures forall c :: c in vol.allocator.Remaining() ==> FAT_START_INDEX <= c && c !in Used(fat, disk[..])
  {
    hide Geo.GroupsHoldMetadata, MetaExtents, InBlocked, Skipped, WellFormedBlocked, Eligible, UnusedAhead,
         AtBoundary, ExtentAllocator.BitmapShows;
    ClusterCountFits(g);
    MetaExtentsWellFormed(g, extents);
    var allocator := new ExtentAllocator(fat, extents, g.DataClusterCount());
    AllocatableIsOpen(extents, allocator.allocatable);
    vol := new Volume(allocator, disk, g.blockSize);
  }

  /** The clusters the allocator may hand out: free, and neither in nor just behind a header. */
  ghost function Allocatable(fat: seq<nat>, g: Geo, blocked: seq<Extent>): set<nat>
    requires g.firstDataClusterBlock <= g.blockCount && g.DataClusterCount() <= |fat|
  {
    set c | FAT_START_INDEX <= c < g.DataClusterCount() && IsFreeCluster(fat[c]) && !Skipped(blocked, c)
  }

  lemma ClusterCountFits(g: Geo)
    requires g.Valid()
    ensures g.DataClusterCount() < CLUSTER_ENTRY_LIMIT && PAGE_LINK_SIZE + DENTRY_SIZE <= g.blockSize
  {
    hide Geo.GroupsHoldMetadata;
  }

  ghost function OnDisk(view: seq<Cluster>): map<nat, Cluster> {
    map c: nat | c < |view| :: view[c]
  }

  lemma PayloadIsIntact(vol: Volume, content: map<nat, Cluster>)
    requires vol.Intact() && Grown(content, vol.payload)
    ensures Grown(content, OnDisk(vol.disk[..]))
  {
    hide ExtentAllocator.Valid;
  }

  /** main between the phases: the block groups, and what phase two has to work on. */
  method BeginPhaseTwo(vol: Volume, groups: BlockGroups, read: StreamArchiver, ghost initial: map<nat, Cluster>,
                       ghost children: seq<FatEntry>,
                       ghost before: set<nat>, ghost rootChain: seq<nat>, ghost rootPlace: seq<Extent>,
                       ghost out: seq<MovedEntry>)
    returns (x: Ext4Volume)
    requires vol.Valid() && groups.Shape() && groups.books == Books({}, {}, {}) && Apart(vol, groups) && read.vol == vol
    requires HeadersIn(vol.allocator.blocked, vol.allocator.clusterCount, vol.payload) && Grown(initial, vol.payload)
    requires vol.log.segs == [ExtentItems(rootPlace)] + EncodeDir(out) + [[]] && CursorAt(vol.log, read.Pos(), 0, 0)
    requires |Clusters(rootPlace)| == |rootChain| && SameShape(children, out) && Tidy(out)
    requires Relocated(vol.allocator.blocked, vol.payload, before, vol.allocator.Remaining(),
                       rootChain + Flat(children), Clusters(rootPlace) + Places(out))
    requires Distinct(rootChain + Flat(children))
    requires forall c :: c in rootChain + Flat(children) ==> c in initial && c !in before && FAT_START_INDEX <= c
    requires forall c :: c in before ==> FAT_START_INDEX <= c
    modifies vol`payload, vol.disk, groups.memory, groups.groupDescs
    ensures fresh(x) && x.vol == vol && x.groups == groups && BetweenPhases(x, read, initial, children, rootPlace, out)
    ensures DataKept(groups.g, old(groups.memory[..]), groups.memory[..]) && x.original == groups.memory[..]
  {
    hide Volume.Valid, BlockGroups.Valid, CursorAt, Geo.GroupsHoldMetadata, MetaExtents, Clusters, Places, DirPlaces,
         Tidy, Flat,
         SameShape, FilesIntact, EncodeDir, Relocated, HeadersIn, Distinct, Unblocked, Waiting, DataKept;
    ghost var payload, blocked := vol.payload, vol.allocator.blocked;
    groups.InitExt4GroupDescs();
    vol.OverwriteMetadata();
    ghost var dirs := Clusters(rootPlace) + DirPlaces(out);
    x := new Ext4Volume(vol, groups, Protected(vol.payload, dirs));
    PlacesWait(blocked, payload, before, vol.allocator.Remaining(), rootChain + Flat(children),
               Clusters(rootPlace) + Places(out), x.Now());
    FilesProtected(blocked, initial, payload, before, vol.allocator.Remaining(), rootChain, children,
                   Clusters(rootPlace), out, x.Now());
    AllAhead(vol.log, [ExtentItems(rootPlace)] + EncodeDir(out));
  }

  lemma AllAhead(log: Log, segs: seq<seq<Item>>)
    requires log.segs == segs + [[]]
    ensures Ahead(log, 0, segs)
  {
  }

  /** What main leaves behind when it gives up: no file has lost its contents, and in phase one
      no cluster that may be allocated is left. */
  ghost predicate NothingLost(vol: Volume, initial: map<nat, Cluster>, x: Ext4Volume?, outcome: Outcome,
                              children: seq<FatEntry>, out: seq<MovedEntry>)
    reads vol, vol.disk, vol.allocator, vol.allocator.bitmap
    reads if x == null then {} else {x, x.vol, x.vol.disk, x.vol.allocator, x.vol.allocator.bitmap,
                                     x.groups, x.groups.memory, x.groups.groupDescs}
  {
    if x == null then
      outcome.DiskFull? && vol.Intact() && vol.allocator.Remaining() == {} && Grown(initial, OnDisk(vol.disk[..]))
    else
      && x.vol == vol && FilesIntact(initial, OnDisk(vol.disk[..]), children, out)
      && exists final :: Failed(x, outcome, final)
  }

  /** main, from build_ext4_root on. */
  method FinishConversion(x: Ext4Volume, read: StreamArchiver, ghost memory0: seq<bv32>,
                          ghost initial: map<nat, Cluster>, ghost children: seq<FatEntry>,
                          ghost rootPlace: seq<Extent>, ghost out: seq<MovedEntry>)
    returns (r: Conversion)
    requires BetweenPhases(x, read, initial, children, rootPlace, out) && x.groups.g.Valid()
    requires DataKept(x.groups.g, memory0, x.original)
    modifies read, x, x.vol`payload, x.vol.disk, x.vol.allocator, x.vol.allocator.bitmap
    modifies x.groups`books, x.groups.memory, x.groups.groupDescs
    ensures r.Stopped? ==> !r.outcome.Done? && !r.outcome.TreeOverflow? && Failed(x, r.outcome, old(x.final))
    ensures r.Stopped? && r.outcome.OutOfInodes? ==> !EnoughInodes(x.groups.g, EntryCount(out))
    ensures r.Converted? ==> EnoughInodes(x.groups.g, EntryCount(out))
    ensures r.Stopped? && r.outcome.DiskFull? ==> |old(x.Now()).remaining| < ClustersForTree(EntryCount(out))
    ensures r.Derailed? ==> Failed(x, TreeOverflow, old(x.final)) && !DirFits(x.groups.g, out, 1)
    ensures r.Stopped? || r.Derailed? ==> FilesIntact(initial, OnDisk(x.vol.disk[..]), children, out)
    ensures r.Converted? ==> DirFits(x.groups.g, out, 1) && TreeConverted(x, initial, children, out)
    ensures r.Converted? ==>
              && FilesIntact(initial, OnDisk(x.vol.disk[..]), children, out)
              && FilesRead(x.groups.g, x.Now(), OnDisk(x.vol.disk[..]), initial, 12, children, out)
              && FromLoHi32(r.freeBlocks) == |FreeBelow(x.groups.g, x.groups.books.marked, x.groups.g.blockCount)|
              && r.freeInodes == LowCounts(x.groups.g, x.groups.books.taken, x.groups.g.GroupCount())
              && InodesShown(x.groups.g, r.freeInodes, EntryCount(out))
              && DataKept(x.groups.g, memory0, x.groups.memory[..])
  {
    hide Volume.Valid, BlockGroups.Valid, Geo.GroupsHoldMetadata, FilesIntact, Ext4Volume.Valid, DirFits, OnDisk,
         FilesRead, BetweenPhases, TreeConverted, Failed, FreeBelow, DataKept, Spending, EntryCount, EnoughInodes,
         LowCounts, InodesShown, ClustersForTree;
    ghost var final, s := x.final, x.Now();
    PhaseTwoFiles(x, read, initial, children, rootPlace, out);
    var outcome := BuildTree(x, read, initial, children, rootPlace, out);
    if !outcome.Done? {
      StoppedShort(x, s, outcome, final, EntryCount(out));
      FailedFiles(x, outcome, final, initial, children, out);
      return if outcome.TreeOverflow? then Derailed else Stopped(outcome);
    }
    ConvertedFacts(x, initial, children, out);
    DataKeptTransitive(x.groups.g, memory0, x.original, x.groups.memory[..]);
    var freeBlocks, freeInodes := x.groups.FinalizeBlockGroupsOnDisk();
    return Converted(freeBlocks, freeInodes);
  }

  /** There are inodes for these entries, beside the reserved ones. */
  predicate EnoughInodes(g: Geo, entries: nat)
    requires 0 < g.blockSize
  {
    EXT4_FIRST_NON_RSV_INODE + entries <= InodeCount(g)
  }

  /** As many free clusters are always enough for phase two: four for each entry, its place in a
      directory block and the block of its extent tree included, and a few for the root directory and
      lost+found. */
  function ClustersForTree(entries: nat): nat { 4 * entries + 7 }

  /** As many free clusters are always enough for the conversion of this tree. */
  ghost function ClustersNeeded(g: Geo, blocked: seq<Extent>, rootChain: seq<nat>, children: seq<FatEntry>): nat
    requires g.Valid()
  {
    ClustersForArchive(g.blockSize, blocked, rootChain, children) + ClustersForTree(EntryCount(children))
  }

  lemma StoppedShort(x: Ext4Volume, s: State, outcome: Outcome, final: map<nat, Cluster>, count: nat)
    requires x.groups.g.Valid() && Failed(x, outcome, final) && Spending(s, x.Now(), outcome, 6, count)
    requires s.nextInode == EXT4_FIRST_NON_RSV_INODE + 1
    ensures outcome.OutOfInodes? ==> !EnoughInodes(x.groups.g, count)
    ensures outcome.DiskFull? ==> |s.remaining| < ClustersForTree(count)
  {
    hide Ext4Volume.Valid, Volume.Intact, Geo.GroupsHoldMetadata, Geo.GroupCount, Geo.InodesPerGroup;
  }

  /** main, from the boot sector's geometry to the block groups. The volume is a sound FAT
      volume; memory is the same device as 32-bit words, as the block groups see it. */
  method Convert(g: Geo, fat: seq<nat>, disk: array<Cluster>, memory: array<bv32>, dpc: nat, rootClusterNo: nat,
                 ghost rootChain: seq<nat>, ghost entries: seq<FatEntry>, ghost children: seq<FatEntry>)
    returns (r: Conversion, ghost volume: Volume, ghost x: Ext4Volume?, ghost out: seq<MovedEntry>)
    requires FatVolume(g, fat, disk[..], dpc, rootClusterNo, rootChain, entries)
    requires ReadAs(fat, disk[..], dpc, rootChain, children)
    requires HoldsVolume(g, memory.Length) && memory as object != disk
    modifies disk, memory
    ensures NoStrayInTree(Used(fat, old(disk[..])), rootChain, entries) ==> children == entries
    ensures volume.disk == disk && MetaExtents(g, volume.allocator.blocked)
    ensures volume.allocator.allocatable == Allocatable(fat, g, volume.allocator.blocked)
    ensures r.Stopped? ==> !r.outcome.Done? && !r.outcome.TreeOverflow?
    ensures r.Stopped? && r.outcome.OutOfInodes? ==> !EnoughInodes(g, EntryCount(children))
    ensures r.Stopped? && r.outcome.DiskFull? ==>
              |Allocatable(fat, g, volume.allocator.blocked)|
              < ClustersNeeded(g, volume.allocator.blocked, rootChain, children)
    ensures r.Converted? ==> EnoughInodes(g, EntryCount(children))
    ensures r.Stopped? ==> NothingLost(volume, Used(fat, old(disk[..])), x, r.outcome, children, out)
    ensures r.Derailed? ==>
              && x != null && NothingLost(volume, Used(fat, old(disk[..])), x, TreeOverflow, children, out)
              && !DirFits(g, out, 1)
    ensures r.Converted? ==> DirFits(g, out, 1)
    ensures r.Converted? ==>
              && x != null && x.vol == volume && x.groups.memory == memory && x.groups.g == g
              && TreeConverted(x, Used(fat, old(disk[..])), children, out)
              && FilesIntact(Used(fat, old(disk[..])), OnDisk(disk[..]), children, out)
              && FilesRead(g, x.Now(), OnDisk(disk[..]), Used(fat, old(disk[..])), 12, children, out)
              && FromLoHi32(r.freeBlocks) == |FreeBelow(g, x.groups.books.marked, g.blockCount)|
              && r.freeInodes == LowCounts(g, x.groups.books.taken, g.GroupCount())
              && InodesShown(g, r.freeInodes, EntryCount(out))
              && DataKept(g, old(memory[..]), memory[..])
  {
    hide Volume.Valid, BlockGroups.Valid, Geo.GroupsHoldMetadata, Clusters, Places, DirPlaces, Tidy, Flat, SameShape,
         FilesIntact, EncodeDir,
         Relocated, HeadersIn, Distinct, Waiting, Used, InBlocked, Represents, IsChain, Volume.Intact, Ext4Volume.Valid,
         FatVolume, ReadAs, NoStrayInTree, DirFits, OnDisk, FilesRead, BetweenPhases, TreeConverted, Failed,
         FreeBelow, DataKept, EntryCount, EnoughInodes, LowCounts, InodesShown, ClustersForArchive, Allocatable;
    ghost var initial := Used(fat, disk[..]);
    VolumeFacts(g, fat, disk[..], dpc, rootClusterNo, rootChain, entries, children);
    x := null;
    var extents := CreateBlockGroupMetaExtents(g);
    var vol := StartVolume(g, fat, disk, extents);
    volume := vol;
    ghost var before, payload0 := vol.allocator.Remaining(), vol.payload;
    var ok, readStream;
    ghost var rootPlace;
    ok, readStream, rootPlace, out := ReadMetadata(vol, fat, dpc, rootClusterNo, rootChain, children, initial);
    if !ok {
      GrownTransitive(initial, payload0, vol.payload);
      PayloadIsIntact(vol, initial);
      r := Stopped(Outcome.DiskFull);
      return;
    }
    GrownTransitive(initial, payload0, vol.payload);
    HeadersGrown(vol.allocator.blocked, g.DataClusterCount(), payload0, vol.payload);
    TreeIsTidy(fat, old(disk[..]), dpc, initial, children, out);
    var groups := new BlockGroups(g, memory);
    var e := BeginPhaseTwo(vol, groups, readStream, initial, children, before, rootChain, rootPlace, out);
    x := e;
    SameCount(children, out);
    r := FinishConversion(e, readStream, old(memory[..]), initial, children, rootPlace, out);
  }

  lemma {:induction false} SameCount(es: seq<FatEntry>, out: seq<MovedEntry>)
    requires SameShape(es, out)
    ensures EntryCount(es) == EntryCount(out)
    decreases es
  {
    hide Tiled, Clusters;
    if es != [] {
      var n := |es| - 1;
      assert SameShape(es[..n], out[..n]);
      SameCount(es[..n], out[..n]);
      SameCount(es[n].children, out[n].children);
    }
  }

  /** The volume with an empty root directory has enough of everything, so that its conversion neither
      stops nor derails. */
  lemma EmptyVolumeHasEnough(fat: seq<nat>, blocked: seq<Extent>)
    requires |fat| == 8902 && forall c :: 2 < c < |fat| ==> fat[c] == 0
    requires Geo(1024, 9000, 100).Valid() && MetaExtents(Geo(1024, 9000, 100), blocked)
    ensures var g := Geo(1024, 9000, 100);
            && |Allocatable(fat, g, blocked)| >= ClustersNeeded(g, blocked, [2], [])
            && EnoughInodes(g, EntryCount<seq<nat>>([])) && DirFits(g, [], 1)
  {
    hide Geo.GroupsHoldMetadata, MetaExtents, InBlocked;
    var g := Geo(1024, 9000, 100);
    forall c | c in Span(40, 20) ensures c in Allocatable(fat, g, blocked) {
      BehindFirstHeader(blocked, c);
    }
    SpanSize(40, 20);
    SubsetSize(Span(40, 20), Allocatable(fat, g, blocked));
    EmptyNeeds(blocked);
    EmptyFits();
  }

  /** The header of the first group reaches from cluster 2 to 34, that of the second starts with
      cluster 8095. */
  lemma BehindFirstHeader(blocked: seq<Extent>, c: nat)
    requires Geo(1024, 9000, 100).Valid() && MetaExtents(Geo(1024, 9000, 100), blocked) && 40 <= c < 60
    ensures !Skipped(blocked, c)
  {
    hide Geo.GroupsHoldMetadata;
    var g := Geo(1024, 9000, 100);
    assert g.GroupCount() == 2 && g.InodeTableBlocks() == 128 && g.Overhead(0) == 132;
    assert blocked[0] == Extent(0, 33, 2) && blocked[1].physicalStart == 8095 && blocked[2].physicalStart == 8902;
  }

  lemma EmptyNeeds(blocked: seq<Extent>)
    requires Geo(1024, 9000, 100).Valid()
    ensures ClustersNeeded(Geo(1024, 9000, 100), blocked, [2], []) <= 9
  {
    hide Geo.GroupsHoldMetadata, InBlocked;
    assert SlotsPerPage(1024) == 31 && Quotient(5, 31) == 0 && Slots([]) == 0 && EntryCount<seq<nat>>([]) == 0;
    assert [2] + Flat([]) == [2] && [2][..0] == [];
    assert Moving(blocked, []) == 0 && Moving(blocked, [2]) <= 1;
  }

  lemma EmptyFits()
    requires Geo(1024, 9000, 100).Valid()
    ensures EnoughInodes(Geo(1024, 9000, 100), EntryCount<seq<nat>>([])) && DirFits(Geo(1024, 9000, 100), [], 1)
  {
    hide Geo.GroupsHoldMetadata, RecLen;
    var g := Geo(1024, 9000, 100);
    assert g.GroupCount() == 2 && g.InodesPerGroup() == 512 && EntryCount<seq<nat>>([]) == 0 && MaxEntries(g) == 84;
    DotRecords(0, 0);
    LayoutSnoc(1024, [], DOT_NAME);
    LayoutSnoc(1024, [DOT_NAME], DOT_DOT_NAME);
    assert [] + [DOT_NAME] == [DOT_NAME] && DirNames([], 0) == [DOT_NAME] + [DOT_DOT_NAME];
  }

  lemma VolumeFacts(g: Geo, fat: seq<nat>, view: seq<Cluster>, dpc: nat, rootClusterNo: nat, rootChain: seq<nat>,
                    entries: seq<FatEntry>, children: seq<FatEntry>)
    requires FatVolume(g, fat, view, dpc, rootClusterNo, rootChain, entries)
    requires ReadAs(fat, view, dpc, rootChain, children)
    ensures g.Valid() && g.blockSize <= 32768 && 0 < dpc && |view| == g.DataClusterCount() <= |fat|
    ensures rootClusterNo < |fat| && IsChain(fat, |view|, rootClusterNo, rootChain)
    ensures Represents(fat, |view|, dpc, Used(fat, view), rootChain, children) && Distinct(rootChain + Flat(children))
    ensures NoStrayInTree(Used(fat, view), rootChain, entries) ==> children == entries
    ensures forall c :: c in rootChain + Flat(children) ==> c in Used(fat, view) && FAT_START_INDEX <= c
    ensures forall c :: c in rootChain ==> c in Used(fat, view)
    ensures forall i :: 0 <= i < |children| ==> RepresentsEntry(fat, |view|, dpc, Used(fat, view), children[i])
  {
    hide Geo.GroupsHoldMetadata, Distinct, Used, Flat, RepresentsEntry, Parse, Live, IsChain, IsFatChain, IsFatTree,
         NoStrayInTree, IsRegularTree;
    ChainRead(fat, |view|, rootClusterNo, rootChain);
    ChainIsUsed(fat, view, rootClusterNo, rootChain);
    TreeIsUsed(fat, view, dpc, children);
    TreeReadRightIffNoStray(fat, |view|, dpc, Used(fat, view), rootChain, entries, children);
  }

  lemma HeadersGrown(blocked: seq<Extent>, clusterCount: nat, a: map<nat, Cluster>, b: map<nat, Cluster>)
    requires HeadersIn(blocked, clusterCount, a) && Grown(a, b)
    ensures HeadersIn(blocked, clusterCount, b)
  {
    hide InBlocked;
  }

  lemma FilesOnDisk(initial: map<nat, Cluster>, final: map<nat, Cluster>, view: seq<Cluster>, children: seq<FatEntry>,
                    out: seq<MovedEntry>)
    requires FilesIntact(initial, final, children, out) && SameShape(children, out) && Grown(final, OnDisk(view))
    ensures FilesIntact(initial, OnDisk(view), children, out)
  {
    hide FilesIntact, SameShape, FilePlaces, OnDisk;
    FilesKept(initial, final, OnDisk(view), children, out);
  }

  lemma PhaseTwoFiles(x: Ext4Volume, read: StreamArchiver, initial: map<nat, Cluster>, children: seq<FatEntry>,
                      rootPlace: seq<Extent>, out: seq<MovedEntry>)
    requires BetweenPhases(x, read, initial, children, rootPlace, out)
    ensures SameShape(children, out) && FilesIntact(initial, x.final, children, out)
    ensures x.firstFreeInodeNo == EXT4_FIRST_NON_RSV_INODE + 1
  {
    hide Ext4Volume.Valid;
  }

  lemma FailedFiles(x: Ext4Volume, outcome: Outcome, final: map<nat, Cluster>, initial: map<nat, Cluster>,
                    children: seq<FatEntry>, out: seq<MovedEntry>)
    requires Failed(x, outcome, final) && FilesIntact(initial, final, children, out) && SameShape(children, out)
    ensures FilesIntact(initial, OnDisk(x.vol.disk[..]), children, out)
  {
    hide FilesIntact, SameShape, OnDisk, BlockGroups.Valid, Balanced, MetaExtents, DataKept, Stored, Complete;
    PayloadIsIntact(x.vol, final);
    FilesOnDisk(initial, final, x.vol.disk[..], children, out);
  }

  /** All inodes of the file system. */
  function InodeCount(g: Geo): nat
    requires 0 < g.blockSize
  {
    g.GroupCount() * g.InodesPerGroup()
  }

  /** The superblock's count of free inodes is right, with n entries built: exactly if the groups
      are small enough, or so few inodes are left that their number fits in 16 bits. */
  predicate InodesShown(g: Geo, shown: nat, n: nat)
    requires 0 < g.blockSize
  {
    var left := InodeCount(g) - EXT4_FIRST_NON_RSV_INODE - n;
    0 <= left && (shown == left <==> g.blockSize <= 16384 || left < U16)
  }

  lemma InodesLeft(x: Ext4Volume, n: nat)
    requires x.Valid() && x.firstFreeInodeNo == EXT4_FIRST_NON_RSV_INODE + 1 + n
    ensures InodesShown(x.groups.g, LowCounts(x.groups.g, x.groups.books.taken, x.groups.g.GroupCount()), n)
    ensures EnoughInodes(x.groups.g, n)
  {
    hide Volume.Valid, MetaExtents, DataKept, BlocksOf, Geo.GroupsHoldMetadata, Geo.GroupCount, Geo.InodesPerGroup,
         GroupsOk, FreeInodes, LowCounts, CountsFit;
    var g := x.groups.g;
    InodesPerGroupBounds(g);
    GroupCountFits(g);
    MulMonotone(g.InodesPerGroup(), 1, g.GroupCount());
    if n > 0 { assert EXT4_FIRST_NON_RSV_INODE + n in x.groups.books.taken; }
    FreeInodesLeft(g, n);
    CountsFitIff(g, n);
    SmallGroups(g);
    LowCountsRight(g, x.groups.books.taken, g.GroupCount());
  }

  lemma ConvertedFacts(x: Ext4Volume, initial: map<nat, Cluster>, children: seq<FatEntry>, out: seq<MovedEntry>)
    requires TreeConverted(x, initial, children, out)
    ensures x.groups.Valid() && DataKept(x.groups.g, x.original, x.groups.memory[..])
    ensures FilesIntact(initial, OnDisk(x.vol.disk[..]), children, out)
    ensures x.groups.g.Valid()
    ensures InodesShown(x.groups.g, LowCounts(x.groups.g, x.groups.books.taken, x.groups.g.GroupCount()),
                        EntryCount(out))
    ensures EnoughInodes(x.groups.g, EntryCount(out))
    ensures FilesRead(x.groups.g, x.Now(), OnDisk(x.vol.disk[..]), initial, EXT4_FIRST_NON_RSV_INODE + 1, children, out)
  {
    hide FilesIntact, SameShape, OnDisk, BlockGroups.Valid, MetaExtents, DataKept, Stored, Complete, TreeBuilt,
         IsDirectory, Geo.GroupsHoldMetadata, FilesRead, ListingOf, LowCounts, EntryCount, InodesShown, EnoughInodes;
    PayloadIsIntact(x.vol, x.final);
    x.vol.PayloadInRange();
    InodesLeft(x, EntryCount(out));
    FilesOnDisk(initial, x.final, x.vol.disk[..], children, out);
    TreeFilesRead(x.groups.g, x.Now(), OnDisk(x.vol.disk[..]), initial, EXT4_FIRST_NON_RSV_INODE + 1, EXT4_ROOT_INODE,
                  children, out);
  }
}
