/** Phase two: the archive is read back and the ext4 directory tree built from it
    (tree_builder.cpp, ext4_dentry.cpp, ext4_extent.cpp). */
module Builder {
  import opened Aggregator
  import opened Allocator
  import opened Archive
  import opened Archiver
  import opened BlockGroups
  import opened Dentry
  import opened DirBlocks
  import opened Disk
  import opened Ext4
  import opened Ext4Tree
  import opened ExtentIterator
  import opened ExtentTree
  import opened Extents
  import opened Fat
  import opened FatRecord
  import opened Geometry
  import opened Names
  import opened Tree
  import opened Util

  /** The closed segments from s on are these. */
  ghost predicate Ahead(log: Log, s: nat, segs: seq<seq<Item>>) {
    s + |segs| < |log.segs| && log.segs[s..s + |segs|] == segs
  }

  lemma AheadSplit(log: Log, s: nat, a: seq<seq<Item>>, b: seq<seq<Item>>)
    requires Ahead(log, s, a + b)
    ensures Ahead(log, s, a) && Ahead(log, s + |a|, b)
    ensures |a| == 1 ==> log.segs[s] == a[0]
  {
    assert log.segs[s..s + |a|] == log.segs[s..s + |a + b|][..|a|];
    assert log.segs[s + |a|..s + |a + b|] == log.segs[s..s + |a + b|][|a|..];
    assert |a| == 1 ==> log.segs[s..s + |a|][0] == log.segs[s];
  }

  /** getNext, dereferenced. */
  method NextItem(x: Ext4Volume, read: StreamArchiver, elementLength: nat, ghost s: nat, ghost k: nat)
    returns (r: Option<Item>)
    requires x.Valid() && read.vol == x.vol
    requires CursorAt(x.vol.log, read.Pos(), s, k) && s < |x.vol.log.segs| - 1
    requires k < |x.vol.log.segs[s]| ==>
               elementLength == SizeOf(x.vol.log.segs[s][k]) && !x.vol.log.segs[s][k].Reserved?
    modifies read
    ensures k < |x.vol.log.segs[s]| ==>
              r == Some(x.vol.log.segs[s][k]) && CursorAt(x.vol.log, read.Pos(), s, k + 1)
    ensures k == |x.vol.log.segs[s]| ==> r == None && CursorAt(x.vol.log, read.Pos(), s + 1, 0)
  {
    hide Ext4Volume.Valid, ArchiveOk, CursorAt, AddressOf;
    x.ArchiveIsIntact();
    CursorInSegment(x.vol.log, read.Pos(), s, k);
    var addr := read.GetNext(elementLength, s, k);
    if addr.None? { return None; }
    ItemAt(x.vol.disk[..], x.vol.log, x.vol.pageSize, s, k, addr.value);
    r := Some(x.vol.disk[addr.value.page].cells[addr.value.offset].item);
  }

  /** skip_dir_extents, skip_child_count: read to the cut. */
  method SkipSegment(x: Ext4Volume, read: StreamArchiver, elementLength: nat, ghost s: nat, ghost k0: nat)
    requires x.Valid() && read.vol == x.vol
    requires CursorAt(x.vol.log, read.Pos(), s, k0) && s < |x.vol.log.segs| - 1
    requires forall k :: 0 <= k < |x.vol.log.segs[s]| ==>
               elementLength == SizeOf(x.vol.log.segs[s][k]) && !x.vol.log.segs[s][k].Reserved?
    modifies read
    ensures CursorAt(x.vol.log, read.Pos(), s + 1, 0)
  {
    hide Ext4Volume.Valid, CursorAt;
    CursorInSegment(x.vol.log, read.Pos(), s, k0);
    ghost var k := k0;
    var item := NextItem(x, read, elementLength, s, k);
    while item.Some?
      invariant k <= |x.vol.log.segs[s]| && (item.Some? <==> k < |x.vol.log.segs[s]|)
      invariant if item.Some? then CursorAt(x.vol.log, read.Pos(), s, k + 1)
                else CursorAt(x.vol.log, read.Pos(), s + 1, 0)
      decreases |x.vol.log.segs[s]| - k, item.Some?
    {
      k := k + 1;
      item := NextItem(x, read, elementLength, s, k);
    }
  }

  lemma CursorInSegment(log: Log, pos: Position, s: nat, k: nat)
    requires CursorAt(log, pos, s, k)
    ensures s < |log.segs| && k <= |log.segs[s]|
  {
  }

  // --- The clusters that are to be registered ------------------------------------------

  ghost predicate Distinct(s: seq<nat>) {
    forall i, j :: 0 <= i < j < |s| ==> s[i] != s[j]
  }

  /** Clusters of the FAT phase that wait for their place in the ext4 tree. */
  ghost predicate Waiting(blocked: seq<Extent>, s: State, own: seq<nat>) {
    && Distinct(own)
    && forall c :: c in own ==> FAT_START_INDEX <= c && c in s.payload && c !in s.registered && !InBlocked(blocked, c)
  }

  lemma WaitingStable(blocked: seq<Extent>, s: State, t: State, own: seq<nat>, other: set<nat>, mine: set<nat>)
    requires Waiting(blocked, s, own) && Between(s, t, other, mine)
    requires forall c :: c in own ==> c !in other || c in s.registered
    ensures Waiting(blocked, t, own)
  {
  }

  lemma WaitingSplit(blocked: seq<Extent>, s: State, a: seq<nat>, b: seq<nat>)
    requires Waiting(blocked, s, a + b)
    ensures Waiting(blocked, s, a) && Waiting(blocked, s, b)
    ensures forall c :: c in a ==> c !in b
  {
    forall i, j | 0 <= i < j < |a| ensures a[i] != a[j] {
      assert (a + b)[i] == a[i] && (a + b)[j] == a[j];
    }
    forall i, j | 0 <= i < j < |b| ensures b[i] != b[j] {
      assert (a + b)[|a| + i] == b[i] && (a + b)[|a| + j] == b[j];
    }
    forall i, j | 0 <= i < |a| && 0 <= j < |b| ensures a[i] != b[j] {
      assert (a + b)[i] == a[i] && (a + b)[|a| + j] == b[j];
    }
    forall c | c in a || c in b ensures c in a + b {
    }
  }

  lemma RunIsSpan(start: nat, length: nat)
    ensures SetOf(Run(start, length)) == Span(start, length)
  {
    forall c: nat ensures c in Run(start, length) <==> c in Span(start, length) {
      if c in Span(start, length) { assert Run(start, length)[c - start] == c; }
    }
  }

  lemma WaitingRun(g: Geo, blocked: seq<Extent>, s: State, e: Extent, rest: seq<nat>)
    requires Waiting(blocked, s, Run(e.physicalStart, e.length) + rest) && 1 <= e.length <= EXT4_MAX_INIT_EXTENT_LEN
    ensures Placeable(g, blocked, s, e)
  {
    var own := Run(e.physicalStart, e.length) + rest;
    assert own[0] == e.physicalStart;
    forall c | e.physicalStart <= c < e.End()
      ensures c in s.payload && c !in s.registered && !InBlocked(blocked, c)
    {
      assert own[c - e.physicalStart] == c;
      assert c in own;
    }
    assert Waiting(blocked, s, own) && own[0] in own;
  }

  // --- Files ---------------------------------------------------------------------------

  lemma {:induction false} TiledIsStorable(blocked: seq<Extent>, s: State, place: seq<Extent>, logical: nat)
    requires Tiled(place, logical) && Waiting(blocked, s, Clusters(place))
    ensures Storable(place)
  {
    if place != [] {
      var init, run := place[..|place| - 1], Run(Last(place).physicalStart, Last(place).length);
      WaitingSplit(blocked, s, Clusters(init), run);
      TiledIsStorable(blocked, s, init, logical);
      assert run[0] == Last(place).physicalStart && run[0] in run;
      forall e | e in place
        ensures FAT_START_INDEX <= e.physicalStart && 1 <= e.length <= EXT4_MAX_INIT_EXTENT_LEN
      {
        assert e in init || e == Last(place);
      }
    }
  }

  /** k of the extents of a file have been registered. */
  ghost predicate Registering(g: Geo, blocked: seq<Extent>, s0: State, s: State, no: nat, place: seq<Extent>, k: nat)
    requires g.Valid() && Storable(place)
  {
    && k <= |place| && no in s.inodes
    && Describes(g, s, s.inodes[no], ToExt4s(g, place[..k]))
    && (forall c :: c in NodeClusters(g, s.inodes[no].root) ==> c !in s0.payload)
    && Waiting(blocked, s, Clusters(place[k..]))
    && Owned(s, no) == SetOf(Clusters(place[..k])) + NodeClusters(g, s.inodes[no].root)
    && Between(s0, s, SetOf(Clusters(place)), {no})
  }

  lemma RegisteringStep(g: Geo, blocked: seq<Extent>, s0: State, s: State, t: State, no: nat, place: seq<Extent>,
                        k: nat)
    requires g.Valid() && Storable(place) && Registering(g, blocked, s0, s, no, place, k) && k < |place|
    requires no in t.inodes
    requires Describes(g, t, t.inodes[no], ToExt4s(g, place[..k]) + [ToExt4Extent(g, place[k])])
    requires var span := Span(place[k].physicalStart, place[k].length);
             Between(s, t, NodeClusters(g, s.inodes[no].root) + span, {no}) && span <= t.registered
    requires forall c :: c in NodeClusters(g, t.inodes[no].root) ==>
               c in NodeClusters(g, s.inodes[no].root) || c !in s.payload
    requires GainsOwned(g, s, t, no, Span(place[k].physicalStart, place[k].length))
    ensures Registering(g, blocked, s0, t, no, place, k + 1)
  {
    hide Geo.GroupsHoldMetadata, NodeClusters, TreeHolds, CountsBlocks, Consumed, Clusters, Run, Span, OnlyGains, Owned;
    var e := place[k];
    var run, rest := Run(e.physicalStart, e.length), Clusters(place[k + 1..]);
    RunIsSpan(e.physicalStart, e.length);
    ClustersFrom(place, k);
    assert place[..k + 1] == place[..k] + [e];
    ClustersSnoc(place[..k], e);
    SetOfAppend(Clusters(place[..k]), run);
    assert ToExt4s(g, place[..k + 1]) == ToExt4s(g, place[..k]) + [ToExt4Extent(g, e)];
    var own2 := NodeClusters(g, s.inodes[no].root) + Span(e.physicalStart, e.length);
    WaitingSplit(blocked, s, run, rest);
    WaitingStable(blocked, s, t, rest, own2, {no});
    assert place == place[..k] + place[k..];
    ClustersAppend(place[..k], place[k..]);
    RestInSet(Clusters(place[..k]), run, rest);
    BetweenTransitive(s0, s, t, SetOf(Clusters(place)), {no}, own2, {no});
  }

  lemma SetOfAppend(a: seq<nat>, b: seq<nat>)
    ensures SetOf(a + b) == SetOf(a) + SetOf(b)
  {
  }

  lemma RestInSet(a: seq<nat>, b: seq<nat>, c: seq<nat>)
    ensures SetOf(b) <= SetOf(a + (b + c))
  {
  }

  /** How phase two fails: whatever has become final is still on the disk. */
  ghost predicate Failed(x: Ext4Volume, outcome: Outcome, final0: map<nat, Cluster>)
    reads x, x.vol, x.vol.disk, x.vol.allocator, x.vol.allocator.bitmap, x.groups, x.groups.memory, x.groups.groupDescs
  {
    && Grown(final0, x.vol.payload)
    && match outcome
       case Done => false
       case DiskFull => x.Stopped(final0)
       case OutOfInodes => x.Valid() && x.NoInodeLeft()
       case TreeOverflow => x.Valid() && exists no :: no in x.inodes && Overflowed(x.inodes[no].root)
  }

  /** How much of what there is a step has used up: no more clusters than these and four for each new
      inode, no more inode numbers than these; and when it ends for want of a number, it still lacks
      one. */
  ghost predicate Spending(a: State, b: State, outcome: Outcome, clusters: int, inodes: nat) {
    && Frugal(a, b, clusters) && b.nextInode <= a.nextInode + inodes
    && (outcome.OutOfInodes? ==> b.nextInode < a.nextInode + inodes)
  }

  lemma SpendingSince(a: State, b: State, c: State, outcome: Outcome, m: int, n: int, inodes: nat, all: nat)
    requires Frugal(a, b, m) && Spending(b, c, outcome, n, inodes) && b.nextInode - a.nextInode + inodes <= all
    ensures Spending(a, c, outcome, m + n, all)
  {
  }

  lemma SpendingSame(a: State, b: State, c: State, d: State, outcome: Outcome, n: int, inodes: nat)
    requires Spending(b, c, outcome, n, inodes)
    requires a.remaining == b.remaining && a.nextInode == b.nextInode
    requires d.remaining == c.remaining && d.nextInode == c.nextInode
    ensures Spending(a, d, outcome, n, inodes)
  {
  }

  lemma SpendingMore(a: State, b: State, outcome: Outcome, m: int, n: int, inodes: nat)
    requires Spending(a, b, outcome, m, inodes) && m <= n
    ensures Spending(a, b, outcome, n, inodes)
  {
  }

  lemma FrugalEnds(a: State, b: State, outcome: Outcome, m: int, n: int, inodes: nat)
    requires Frugal(a, b, m) && m <= n && a.nextInode == b.nextInode && !outcome.OutOfInodes?
    ensures Spending(a, b, outcome, n, inodes)
  {
  }

  lemma RegisteredSpending(s0: State, s: State, t: State, outcome: Outcome, k: nat)
    requires Frugal(s0, s, if k > INODE_ENTRIES then 1 else 0)
    requires Frugal(s, t, if k == INODE_ENTRIES then 1 else 0)
    requires s0.nextInode == s.nextInode == t.nextInode && !outcome.OutOfInodes?
    ensures Frugal(s0, t, if k + 1 > INODE_ENTRIES then 1 else 0) && Spending(s0, t, outcome, 1, 0)
  {
  }

  /** A turn of the loop in set_extents. */
  method RegisterNext(x: Ext4Volume, no: nat, e: Extent, ghost s0: State, ghost place: seq<Extent>, ghost k: nat)
    returns (outcome: Outcome)
    requires x.Valid() && x.groups.g.Valid() && x.Open(no) && Storable(place) && k < |place| && e == place[k]
    requires Registering(x.groups.g, x.vol.allocator.blocked, s0, x.Now(), no, place, k)
    requires x.firstFreeInodeNo == s0.nextInode && Frugal(s0, x.Now(), if k > INODE_ENTRIES then 1 else 0)
    modifies x`inodes, x`registered, x`owner, x.vol`payload, x.vol.disk, x.vol.allocator, x.vol.allocator.bitmap
    modifies x.groups`books, x.groups.memory, x.groups.groupDescs
    ensures !outcome.Done? ==> Failed(x, outcome, old(x.final))
    ensures Spending(s0, x.Now(), outcome, 1, 0)
    ensures outcome.Done? ==>
              && x.Valid() && x.Open(no) && Frugal(s0, x.Now(), if k + 1 > INODE_ENTRIES then 1 else 0)
              && Registering(x.groups.g, x.vol.allocator.blocked, s0, x.Now(), no, place, k + 1)
              && x.inodes[no] == old(x.inodes[no]).(root := x.inodes[no].root, blocks := x.inodes[no].blocks)
              && x.vol.log == s0.log
    ensures if k < MaxEntries(x.groups.g) then !outcome.TreeOverflow? else !outcome.Done?
  {
    hide Ext4Volume.Valid, Between, Describes, Registering, Waiting, Clusters, Geo.GroupsHoldMetadata, NodeClusters,
         Placeable, ToExt4Extent, Span, MetaExtents, MaxEntries, GainsOwned, Owned, Frugal, Spending, Failed;
    ghost var g, blocked, t := x.groups.g, x.vol.allocator.blocked, x.Now();
    RegisteringNext(g, blocked, s0, t, no, place, k);
    outcome := x.RegisterExtent(e, no, ToExt4s(g, place[..k]));
    RegisteredSpending(s0, t, x.Now(), outcome, k);
    if outcome.Done? {
      RegisteringStep(g, blocked, s0, t, x.Now(), no, place, k);
      RegisteringKeepsLog(g, blocked, s0, x.Now(), no, place, k + 1);
    } else {
      RegistrationFailed(x, outcome, no, t.final);
    }
  }

  /** set_extents */
  method SetExtents(x: Ext4Volume, no: nat, record: Record, read: StreamArchiver, ghost s: nat,
                    ghost place: seq<Extent>)
    returns (outcome: Outcome)
    requires x.Valid() && x.Open(no) && read.vol == x.vol && x.inodes[no] == NewInode(false, 1)
    requires Owned(x.Now(), no) == {}
    requires Ahead(x.vol.log, s, [ExtentItems(place)]) && CursorAt(x.vol.log, read.Pos(), s, 0)
    requires Tiled(place, 0) && Waiting(x.vol.allocator.blocked, x.Now(), Clusters(place))
    modifies read, x`inodes, x`registered, x`owner, x.vol`payload, x.vol.disk, x.vol.allocator, x.vol.allocator.bitmap
    modifies x.groups`books, x.groups.memory, x.groups.groupDescs
    ensures !outcome.Done? ==> Failed(x, outcome, old(x.final))
    ensures Spending(old(x.Now()), x.Now(), outcome, 1, 0)
    ensures outcome.Done? ==>
              && x.Valid() && x.Open(no) && CursorAt(x.vol.log, read.Pos(), s + 1, 0) && Storable(place)
              && Registering(x.groups.g, x.vol.allocator.blocked, old(x.Now()), x.Now(), no, place, |place|)
              && x.inodes[no]
                 == NewInode(false, 1).(size := SetLoHi32(FileSize(record)), root := x.inodes[no].root,
                                        blocks := x.inodes[no].blocks)
    ensures outcome.Done? ==> |place| <= MaxEntries(x.groups.g) && x.inodes[no].size == Halves(Length(record), 0)
    ensures outcome.TreeOverflow? ==> |place| > MaxEntries(x.groups.g)
  {
    hide Length, Ext4Volume.Valid, CursorAt, Registering, Waiting, Tiled, Clusters, Geo.GroupsHoldMetadata, FileSize,
         SetLoHi32, MetaExtents, MaxEntries, Owned, Frugal, Spending, Failed, Storable;
    x.ValidShape();
    SizeStored(record);
    ghost var g, blocked, s0 := x.groups.g, x.vol.allocator.blocked, x.Now();
    TiledIsStorable(blocked, s0, place, 0);
    x.UpdateInode(no, x.inodes[no].(size := SetLoHi32(FileSize(record))));
    RegisteringStarts(g, blocked, s0, x.Now(), no, place);
    AheadSplit(x.vol.log, s, [ExtentItems(place)], []);
    FrugalReflexive(s0, x.Now());
    ghost var k := 0;
    var item := NextItem(x, read, EXTENT_SIZE, s, 0);
    while item.Some?
      invariant x.Valid() && x.Open(no) && k <= |place| && x.vol.log == s0.log && x.final == s0.final
      invariant k <= MaxEntries(g) && Frugal(s0, x.Now(), if k > INODE_ENTRIES then 1 else 0)
      invariant Registering(g, blocked, s0, x.Now(), no, place, k)
      invariant item == if k < |place| then Some(ExtentItem(place[k])) else None
      invariant if k < |place| then CursorAt(x.vol.log, read.Pos(), s, k + 1)
                else CursorAt(x.vol.log, read.Pos(), s + 1, 0)
      invariant x.inodes[no]
                == NewInode(false, 1).(size := SetLoHi32(FileSize(record)), root := x.inodes[no].root,
                                       blocks := x.inodes[no].blocks)
      decreases |place| - k, item.Some?
    {
      outcome := RegisterNext(x, no, item.value.extent, s0, place, k);
      if !outcome.Done? { return; }
      k := k + 1;
      item := NextItem(x, read, EXTENT_SIZE, s, k);
    }
    outcome := Done;
    FrugalEnds(s0, x.Now(), Done, if k > INODE_ENTRIES then 1 else 0, 1, 0);
  }

  lemma RegistrationFailed(x: Ext4Volume, outcome: Outcome, no: nat, final: map<nat, Cluster>)
    requires if outcome.DiskFull? then x.Stopped(final) else outcome.TreeOverflow? && x.Valid() && x.final == final
    requires outcome.TreeOverflow? ==> no in x.inodes && Overflowed(x.inodes[no].root)
    ensures Failed(x, outcome, final)
  {
    hide Volume.Valid, BlockGroups.Valid, DataKept;
    if !outcome.DiskFull? { x.FinalIsOnDisk(); }
  }

  lemma RegisteringStarts(g: Geo, blocked: seq<Extent>, s0: State, s: State, no: nat, place: seq<Extent>)
    requires g.Valid() && Storable(place) && Waiting(blocked, s0, Clusters(place)) && no in s0.inodes
    requires no in s.inodes && s == s0.(inodes := s0.inodes[no := s.inodes[no]])
    requires s.inodes[no].root == InitExtentHeader() && s.inodes[no].blocks == Halves(0, 0) && Owned(s0, no) == {}
    ensures Registering(g, blocked, s0, s, no, place, 0)
  {
    hide Geo.GroupsHoldMetadata;
    EmptyTree(g, s.payload);
    assert place[..0] == [] && place[0..] == place && ToExt4s(g, []) == [];
    assert Sectors(g, 0) == 0;
  }

  lemma RegisteringNext(g: Geo, blocked: seq<Extent>, s0: State, s: State, no: nat, place: seq<Extent>, k: nat)
    requires g.Valid() && Storable(place) && Registering(g, blocked, s0, s, no, place, k) && k < |place|
    ensures no in s.inodes && Describes(g, s, s.inodes[no], ToExt4s(g, place[..k]))
    ensures Placeable(g, blocked, s, place[k]) && s.log == s0.log
  {
    hide Geo.GroupsHoldMetadata, Describes, Waiting, Consumed, Clusters;
    ClustersFrom(place, k);
    WaitingRun(g, blocked, s, place[k], Clusters(place[k + 1..]));
  }

  // --- Names ---------------------------------------------------------------------------

  /** build_dentry */
  method BuildDentry(x: Ext4Volume, inodeNumber: nat, read: StreamArchiver, ghost s: nat, ghost name: seq<seq<Unit>>)
    returns (rec: DirRecord)
    requires x.Valid() && read.vol == x.vol
    requires Ahead(x.vol.log, s, [NameItems(name)]) && CursorAt(x.vol.log, read.Pos(), s, 0)
    modifies read
    ensures rec == BuildRecord(Listed(inodeNumber, EncodeName(name))) && |rec.name| <= NAME_LIMIT
    ensures CursorAt(x.vol.log, read.Pos(), s + 1, 0)
  {
    hide Ext4Volume.Valid, CursorAt, AppendSegment;
    AheadSplit(x.vol.log, s, [NameItems(name)], []);
    var bytes: seq<Byte> := [];
    ghost var k := 0;
    var item := NextItem(x, read, NAME_SIZE, s, 0);
    while item.Some?
      invariant k <= |name| && |bytes| <= NAME_LIMIT && bytes == EncodeName(name[..k])
      invariant item == if k < |name| then Some(NameItem(name[k])) else None
      invariant if k < |name| then CursorAt(x.vol.log, read.Pos(), s, k + 1)
                else CursorAt(x.vol.log, read.Pos(), s + 1, 0)
      decreases |name| - k, item.Some?
    {
      bytes := Ucs2ToUtf8(bytes, item.value.units);
      assert name[..k + 1][..k] == name[..k];
      k := k + 1;
      item := NextItem(x, read, NAME_SIZE, s, k);
    }
    assert name[..|name|] == name;
    rec := DirRecord(inodeNumber, RecLen(bytes), bytes);
  }

  // --- A directory under construction --------------------------------------------------

  /** The directory no has these finished blocks, in which a reader finds done; the clusters
      ahead wait for their place. Since s0 only own and newly allocated clusters were used. */
  ghost predicate Closed(g: Geo, blocked: seq<Extent>, s0: State, s: State, no: nat, own: set<nat>,
                         ahead: seq<nat>, blocks: seq<nat>, done: seq<Listed>)
    requires g.Valid()
  {
    && no in s.inodes && no !in s.sealed && InDataArea(blocks)
    && Describes(g, s, s.inodes[no], UnitExts(g, blocks))
    && (forall c :: c in NodeClusters(g, s.inodes[no].root) ==> c !in s0.payload)
    && (forall c :: c in blocks ==> c in own || c !in s0.payload)
    && (forall c :: c in blocks ==> c in s.payload && c !in s.final && c in s.registered)
    && (forall c :: c in blocks ==> c !in NodeClusters(g, s.inodes[no].root))
    && ReadDir(s.payload, g.blockSize, blocks) == Some(done)
    && Owned(s, no) == SetOf(blocks) + NodeClusters(g, s.inodes[no].root)
    && Waiting(blocked, s, ahead)
    && (forall c :: c in ahead ==> c in own || c !in s0.payload)
    && Between(s0, s, own, {no})
  }

  /** What else has been written leaves the directory as it is. */
  lemma ClosedStable(g: Geo, blocked: seq<Extent>, s0: State, s: State, t: State, no: nat, own: set<nat>,
                     ahead: seq<nat>,
                     ahead2: seq<nat>, blocks: seq<nat>, done: seq<Listed>, other: set<nat>, mine: set<nat>)
    requires g.Valid() && Closed(g, blocked, s0, s, no, own, ahead, blocks, done)
    requires Between(s, t, other, mine) && (forall k :: k in mine ==> k !in s0.inodes && k != no)
    requires forall c :: c in other ==> (c in own || c !in s0.payload) && c !in s.registered
    requires no in t.inodes && no !in t.sealed
    requires Waiting(blocked, t, ahead2) && forall c :: c in ahead2 ==> c in own || c !in s0.payload
    ensures Closed(g, blocked, s0, t, no, own, ahead2, blocks, done)
  {
    hide Geo.GroupsHoldMetadata, CountsBlocks, Consumed, ReadDir, UnitExts, Owned, SetOf;
    OthersOwn(s, t, other, mine, no);
    DescribesStable(g, s, t, s.inodes[no], UnitExts(g, blocks), other, mine);
    ReadDirStable(s.payload, t.payload, g.blockSize, blocks);
    BetweenTransitive(s0, s, t, own, {no}, other, mine);
  }

  /** An inode that others leave alone gains nothing. */
  lemma OthersOwn(s: State, t: State, own: set<nat>, mine: set<nat>, no: nat)
    requires Between(s, t, own, mine) && no in s.inodes && no !in mine
    ensures Owned(t, no) == Owned(s, no)
  {
    hide Consumed;
  }

  lemma DescribesStable(g: Geo, s: State, t: State, inode: Inode, exts: seq<Ext4Extent>, other: set<nat>,
                        mine: set<nat>)
    requires EXTENT_HEADER_SIZE <= g.blockSize && Describes(g, s, inode, exts)
    requires Between(s, t, other, mine) && forall c :: c in other ==> c !in s.registered
    requires forall c :: c in NodeClusters(g, inode.root) ==> c in s.payload
    ensures Describes(g, t, inode, exts)
  {
    hide CountsBlocks, Consumed, LeafHolds;
  }

  /** The local variables of build_ext4_metadata_tree: the cluster of the current block, the
      number of blocks, the offset of previous_dentry, and position_in_block. */
  datatype DirCursor = DirCursor(cluster: nat, blockCount: nat, previous: nat, position: nat) {
    ghost function Reach(): Fill { Fill(blockCount, position) }
  }

  /** The current block holds these entries so far. */
  ghost predicate Filling(g: Geo, s: State, cur: DirCursor, items: seq<Listed>) {
    && cur.cluster in s.payload && cur.cluster !in s.final && items != []
    && Packed(EntriesOf(s.payload[cur.cluster]), items)
    && Offset(items) == cur.position <= g.blockSize && cur.previous == Offset(items[..|items| - 1])
  }

  /** The directory no has finished blocks, which list done, and a current block with items. */
  ghost predicate Building(g: Geo, blocked: seq<Extent>, s0: State, s: State, no: nat, own: set<nat>, ahead: seq<nat>,
                           cur: DirCursor, blocks: seq<nat>, done: seq<Listed>, items: seq<Listed>)
    requires g.Valid()
  {
    && Closed(g, blocked, s0, s, no, own, [cur.cluster] + ahead, blocks, done)
    && Filling(g, s, cur, items) && cur.blockCount == |blocks| + 1
  }

  /** A write to a cluster that waits for its place. */
  lemma WaitingWritten(g: Geo, blocked: seq<Extent>, s0: State, s: State, no: nat, own: set<nat>, c: nat,
                       ahead: seq<nat>,
                       blocks: seq<nat>, done: seq<Listed>, content: Cluster)
    requires g.Valid() && Closed(g, blocked, s0, s, no, own, [c] + ahead, blocks, done) && c !in s.final
    ensures c in s.payload && c !in s.registered && c !in ahead
    ensures Closed(g, blocked, s0, s.(payload := s.payload[c := content]), no, own, [c] + ahead, blocks, done)
  {
    hide Geo.GroupsHoldMetadata, Describes, ReadDir, UnitExts, Owned, SetOf, NodeClusters;
    assert ([c] + ahead)[0] == c && c in [c] + ahead;
    WaitingSplit(blocked, s, [c], ahead);
    assert c in [c];
    ClosedStable(g, blocked, s0, s, s.(payload := s.payload[c := content]), no, own, [c] + ahead, [c] + ahead, blocks,
                 done, {c}, {});
  }

  lemma HeadWaits(g: Geo, blocked: seq<Extent>, s0: State, s: State, no: nat, own: set<nat>, c: nat, ahead: seq<nat>,
                  blocks: seq<nat>, done: seq<Listed>)
    requires g.Valid() && Closed(g, blocked, s0, s, no, own, [c] + ahead, blocks, done)
    ensures c in s.payload && FAT_START_INDEX <= c
  {
    hide Geo.GroupsHoldMetadata, Describes, ReadDir, UnitExts, Between;
    assert c in [c] + ahead;
  }

  lemma FirstRecord(g: Geo, blocked: seq<Extent>, s0: State, s: State, no: nat, own: set<nat>, c: nat, ahead: seq<nat>,
                    blocks: seq<nat>, done: seq<Listed>, item: Listed)
    requires g.Valid() && Closed(g, blocked, s0, s, no, own, [c] + ahead, blocks, done) && c !in s.final
    requires RecLen(item.name) <= g.blockSize
    ensures c in s.payload
    ensures var t := s.(payload := s.payload[c := DirBlock(EntriesOf(s.payload[c])[0 := BuildRecord(item)])]);
            Building(g, blocked, s0, t, no, own, ahead, DirCursor(c, |blocks| + 1, 0, RecLen(item.name)), blocks,
                     done, [item])
  {
    hide Geo.GroupsHoldMetadata, Closed, RecLen, Packed, Offset;
    HeadWaits(g, blocked, s0, s, no, own, c, ahead, blocks, done);
    WaitingWritten(g, blocked, s0, s, no, own, c, ahead, blocks, done,
                   DirBlock(EntriesOf(s.payload[c])[0 := BuildRecord(item)]));
    FirstPacked(EntriesOf(s.payload[c]), item);
  }

  lemma NextRecord(g: Geo, blocked: seq<Extent>, s0: State, s: State, no: nat, own: set<nat>, ahead: seq<nat>,
                   cur: DirCursor,
                   blocks: seq<nat>, done: seq<Listed>, items: seq<Listed>, item: Listed)
    requires g.Valid() && Building(g, blocked, s0, s, no, own, ahead, cur, blocks, done, items)
    requires cur.position + RecLen(item.name) <= g.blockSize
    ensures var entries := EntriesOf(s.payload[cur.cluster])[cur.position := BuildRecord(item)];
            var t := s.(payload := s.payload[cur.cluster := DirBlock(entries)]);
            Building(g, blocked, s0, t, no, own, ahead,
                     cur.(previous := cur.position, position := cur.position + RecLen(item.name)),
                     blocks, done, items + [item])
  {
    hide Geo.GroupsHoldMetadata, Closed, RecLen, Offset, Packed;
    var entries := EntriesOf(s.payload[cur.cluster]);
    WaitingWritten(g, blocked, s0, s, no, own, cur.cluster, ahead, blocks, done,
                   DirBlock(entries[cur.position := BuildRecord(item)]));
    PackedSnoc(entries, items, item);
    assert (items + [item])[..|items|] == items;
  }

  /** The last record takes the rest of the block. */
  lemma LastRecordStretched(g: Geo, blocked: seq<Extent>, s0: State, s: State, no: nat, own: set<nat>,
                            ahead: seq<nat>, cur: DirCursor,
                            blocks: seq<nat>, done: seq<Listed>, items: seq<Listed>)
    requires g.Valid() && g.blockSize <= 32768 && Building(g, blocked, s0, s, no, own, ahead, cur, blocks, done, items)
    ensures var entries := EntriesOf(s.payload[cur.cluster]);
            && s.payload[cur.cluster].DirBlock? && cur.previous in entries
            && var entries' := entries[cur.previous := Stretched(entries[cur.previous], g.blockSize - cur.position)];
               var t := s.(payload := s.payload[cur.cluster := DirBlock(entries')]);
               && Closed(g, blocked, s0, t, no, own, [cur.cluster] + ahead, blocks, done)
               && Finished(entries', g.blockSize, items)
  {
    hide Geo.GroupsHoldMetadata, Closed, RecLen, Offset, Packed, Finished;
    var entries := EntriesOf(s.payload[cur.cluster]);
    FinishPacked(entries, g.blockSize, items);
    assert cur.previous == Offset(items[..|items| - 1]) && g.blockSize - cur.previous < U16;
    assert Finished(entries[cur.previous := Stretched(entries[cur.previous], g.blockSize - cur.position)],
                    g.blockSize, items);
    WaitingWritten(g, blocked, s0, s, no, own, cur.cluster, ahead, blocks, done,
                   DirBlock(entries[cur.previous := Stretched(entries[cur.previous], g.blockSize - cur.position)]));
  }

  /** The block has been entered into the directory's extents. */
  lemma BlockRegistered(g: Geo, blocked: seq<Extent>, s0: State, s: State, t: State, no: nat, own: set<nat>, c: nat,
                        ahead: seq<nat>,
                        blocks: seq<nat>, done: seq<Listed>, items: seq<Listed>)
    requires g.Valid() && Closed(g, blocked, s0, s, no, own, [c] + ahead, blocks, done)
    requires c in s.payload && c !in s.final && Finished(EntriesOf(s.payload[c]), g.blockSize, items)
    requires FAT_START_INDEX <= c && no in t.inodes && t.final == s.final && t.sealed == s.sealed
    requires Describes(g, t, t.inodes[no], UnitExts(g, blocks) + [ToExt4Extent(g, Extent(|blocks|, 1, c))])
    requires Between(s, t, NodeClusters(g, s.inodes[no].root) + Span(c, 1), {no}) && Span(c, 1) <= t.registered
    requires forall k :: k in NodeClusters(g, t.inodes[no].root) ==>
               k in NodeClusters(g, s.inodes[no].root) || k !in s.payload
    requires c !in NodeClusters(g, s.inodes[no].root) ==> c in t.payload && t.payload[c] == s.payload[c]
    requires GainsOwned(g, s, t, no, Span(c, 1))
    ensures Closed(g, blocked, s0, t, no, own, ahead, blocks + [c], done + items)
  {
    hide Geo.GroupsHoldMetadata, CountsBlocks, TreeHolds, ReadDir, NodeClusters, Finished, Span, Between, Waiting,
         EntriesOf, UnitExts, ToExt4Extent, Owned, GainsOwned, SetOf;
    SpanGrows(c, 0);
    OneBlockMore(g, s, t, no, blocks, c);
    WaitingSplit(blocked, s, [c], ahead);
    HeadIsNew(blocked, s, c, ahead, blocks);
    DescribedNodes(g, s, s.inodes[no], UnitExts(g, blocks));
    var nodes := NodeClusters(g, s.inodes[no].root);
    WaitingStable(blocked, s, t, ahead, nodes + Span(c, 1), {no});
    BlocksAfter(s, t, nodes, no, blocks, c);
    PayloadStays(s0, s, own, {no});
    BlockRead(s.payload, t.payload, g.blockSize, blocks, c, done, items);
    UnitExtsSnoc(g, blocks, c);
    BetweenTransitive(s0, s, t, own, {no}, nodes + Span(c, 1), {no});
  }

  lemma PayloadStays(s: State, t: State, own: set<nat>, mine: set<nat>)
    requires Between(s, t, own, mine)
    ensures forall c :: c in s.payload ==> c in t.payload
  {
  }

  lemma HeadIsNew(blocked: seq<Extent>, s: State, c: nat, ahead: seq<nat>, blocks: seq<nat>)
    requires Waiting(blocked, s, [c] + ahead) && forall k :: k in blocks ==> k in s.registered
    ensures c in s.payload && c !in s.registered && c !in blocks && c !in ahead && c in [c] + ahead
  {
    WaitingSplit(blocked, s, [c], ahead);
    assert c in [c] && c in [c] + ahead;
  }

  /** Registering c leaves the blocks before it in place. */
  lemma BlocksAfter(s: State, t: State, nodes: set<nat>, no: nat, blocks: seq<nat>, c: nat)
    requires Between(s, t, nodes + Span(c, 1), {no}) && Span(c, 1) <= t.registered && c in s.payload && c !in blocks
    requires forall k :: k in blocks ==> k in s.payload && k in s.registered && k !in nodes
    ensures forall k :: k in blocks ==> k in t.payload && t.payload[k] == s.payload[k]
    ensures forall k :: k in blocks + [c] ==> k in t.payload && k in t.registered
  {
    hide Consumed;
    SpanGrows(c, 0);
  }

  lemma OneBlockMore(g: Geo, s: State, t: State, no: nat, blocks: seq<nat>, c: nat)
    requires GainsOwned(g, s, t, no, Span(c, 1)) && Owned(s, no) == SetOf(blocks) + NodeClusters(g, s.inodes[no].root)
    ensures Owned(t, no) == SetOf(blocks + [c]) + NodeClusters(g, t.inodes[no].root)
  {
    hide Owned, OnlyGains, Span, NodeClusters;
    SpanGrows(c, 0);
    SetOfAppend(blocks, [c]);
    assert SetOf([c]) == {c};
  }

  lemma UnitExtsSnoc(g: Geo, blocks: seq<nat>, c: nat)
    requires InDataArea(blocks) && FAT_START_INDEX <= c
    ensures InDataArea(blocks + [c])
    ensures UnitExts(g, blocks + [c]) == UnitExts(g, blocks) + [ToExt4Extent(g, Extent(|blocks|, 1, c))]
  {
  }

  lemma BlockRead(content: map<nat, Cluster>, content2: map<nat, Cluster>, blockSize: nat, blocks: seq<nat>, c: nat,
                  done: seq<Listed>, items: seq<Listed>)
    requires ReadDir(content, blockSize, blocks) == Some(done) && blockSize % 4 == 0
    requires forall k :: k in blocks && k in content ==> k in content2 && content2[k] == content[k]
    requires c in content && c in content2 && content2[c] == content[c]
    requires Finished(EntriesOf(content[c]), blockSize, items)
    ensures ReadDir(content2, blockSize, blocks + [c]) == Some(done + items)
  {
    hide Finished, EntriesOf, ReadDir, Walk;
    WalkReads(EntriesOf(content[c]), blockSize, items);
    ReadDirStable(content, content2, blockSize, blocks);
    ReadDirSnoc(content2, blockSize, blocks, c);
  }

  /** The next block, out of the directory's own clusters or newly allocated. */
  lemma BlockClaimed(g: Geo, blocked: seq<Extent>, books: Books, s0: State, s: State, t: State, no: nat,
                     own: set<nat>, c: nat,
                     ahead: seq<nat>, blocks: seq<nat>, done: seq<Listed>)
    requires g.Valid() && Closed(g, blocked, s0, s, no, own, ahead, blocks, done) && Balanced(g, books, s)
    requires Claimed(g, blocked, s, t, c)
    ensures Closed(g, blocked, s0, t, no, own, [c] + ahead, blocks, done) && c !in t.final
  {
    hide Geo.GroupsHoldMetadata, Describes, ReadDir, UnitExts, Consumed, Owned, SetOf, NodeClusters, BlocksOf;
    ClaimedIsPlaceable(g, blocked, books, s, t, c, 0);
    assert c !in s0.payload && c !in ahead;
    forall k | k in [c] + ahead
      ensures FAT_START_INDEX <= k && k in t.payload && k !in t.registered && !InBlocked(blocked, k)
      ensures k in own || k !in s0.payload
    {
      assert k == c || k in ahead;
    }
    ClosedStable(g, blocked, s0, s, t, no, own, ahead, [c] + ahead, blocks, done, {}, {});
  }

  /** memcpy of a record into a directory block. */
  method WriteRecord(x: Ext4Volume, c: nat, pos: nat, rec: DirRecord)
    requires x.Valid() && c in x.vol.payload && c !in x.final
    modifies x.vol`payload, x.vol.disk
    ensures x.Valid()
    ensures var entries := EntriesOf(old(x.vol.payload)[c])[pos := rec];
            x.Now() == old(x.Now()).(payload := old(x.vol.payload)[c := DirBlock(entries)])
  {
    hide Ext4Volume.Valid;
    x.PayloadOnDisk(c);
    x.WriteCluster(c, DirBlock((if x.vol.disk[c].DirBlock? then x.vol.disk[c].entries else map[])[pos := rec]));
  }

  /** previous_dentry takes the rest of the block, and register_dir_extent. */
  method FinishBlock(x: Ext4Volume, no: nat, cur: DirCursor, ghost s0: State, ghost own: set<nat>,
                     ghost ahead: seq<nat>,
                     ghost blocks: seq<nat>, ghost done: seq<Listed>, ghost items: seq<Listed>)
    returns (outcome: Outcome)
    requires x.Valid() && x.groups.g.Valid()
    requires Building(x.groups.g, x.vol.allocator.blocked, s0, x.Now(), no, own, ahead, cur, blocks, done, items)
    modifies x`inodes, x`registered, x`owner, x.vol`payload, x.vol.disk, x.vol.allocator, x.vol.allocator.bitmap
    modifies x.groups`books, x.groups.memory, x.groups.groupDescs
    ensures !outcome.Done? ==> Failed(x, outcome, old(x.final))
    ensures Spending(old(x.Now()), x.Now(), outcome, 1, 0)
    ensures outcome.Done? ==>
              && x.Valid() && no in old(x.inodes)
              && Closed(x.groups.g, x.vol.allocator.blocked, s0, x.Now(), no, own, ahead, blocks + [cur.cluster],
                        done + items)
              && old(x.registered) <= x.registered
              && x.inodes
                 == old(x.inodes)[no := old(x.inodes[no]).(root := x.inodes[no].root, blocks := x.inodes[no].blocks)]
    ensures outcome.Done? ==> cur.blockCount <= MaxEntries(x.groups.g) && OnlyGains(old(x.Now()), x.Now(), no)
    ensures outcome.TreeOverflow? ==> cur.blockCount > MaxEntries(x.groups.g)
  {
    hide Ext4Volume.Valid, Between, Describes, Waiting, Closed, Geo.GroupsHoldMetadata, NodeClusters, Placeable, Span,
         MetaExtents, MaxEntries,
         Finished, Packed, Offset, UnitExts, ToExt4Extent, Stretched;
    x.ValidShape();
    ghost var g, blocked := x.groups.g, x.vol.allocator.blocked;
    LastRecordStretched(g, blocked, s0, x.Now(), no, own, ahead, cur, blocks, done, items);
    x.PayloadOnDisk(cur.cluster);
    var previous := x.vol.disk[cur.cluster].entries[cur.previous];
    WriteRecord(x, cur.cluster, cur.previous, Stretched(previous, x.groups.g.blockSize - cur.position));
    ghost var t := x.Now();
    ClosedReady(g, blocked, s0, t, no, own, cur.cluster, ahead, blocks, done);
    outcome := x.RegisterExtent(Extent(cur.blockCount - 1, 1, cur.cluster), no, UnitExts(g, blocks));
    if !outcome.Done? {
      if !outcome.DiskFull? { x.FinalIsOnDisk(); }
      return;
    }
    BlockRegistered(g, blocked, s0, t, x.Now(), no, own, cur.cluster, ahead, blocks, done, items);
    BetweenKeeps(t, x.Now(), NodeClusters(g, t.inodes[no].root) + Span(cur.cluster, 1), {no});
  }

  lemma ClosedReady(g: Geo, blocked: seq<Extent>, s0: State, s: State, no: nat, own: set<nat>, c: nat, ahead: seq<nat>,
                    blocks: seq<nat>, done: seq<Listed>)
    requires g.Valid() && Closed(g, blocked, s0, s, no, own, [c] + ahead, blocks, done)
    ensures no in s.inodes && no !in s.sealed && InDataArea(blocks) && FAT_START_INDEX <= c && c in s.payload
    ensures Describes(g, s, s.inodes[no], UnitExts(g, blocks))
    ensures Placeable(g, blocked, s, Extent(|blocks|, 1, c))
  {
    hide Geo.GroupsHoldMetadata, Describes, ReadDir, UnitExts, Between;
    assert c in [c] + ahead;
  }

  /** next_dir_block */
  method NextDirBlock(x: Ext4Volume, it: ExtentIterator) returns (r: Option<nat>)
    requires x.Valid() && it.stream.vol == x.vol && it.Valid() && InDataArea(it.Rest())
    modifies it, it.stream, x.vol`payload, x.vol.allocator, x.vol.allocator.bitmap
    ensures r.None? ==> x.Stopped(x.final)
    ensures Frugal(old(x.Now()), x.Now(), 1)
    ensures r.Some? ==> x.Valid() && it.Valid()
    ensures r.Some? && old(it.Rest()) != [] ==>
              r.value == old(it.Rest())[0] && it.Rest() == old(it.Rest())[1..] && x.Now() == old(x.Now())
    ensures r.Some? && old(it.Rest()) == [] ==>
              && it.Rest() == [] && Claimed(x.groups.g, x.vol.allocator.blocked, old(x.Now()), x.Now(), r.value)
  {
    hide Ext4Volume.Valid, ArchiveOk, Claimed, Between, Placeable, ExtentIterator.Rest, Reading;
    x.ArchiveIsIntact();
    var clusterNo := it.NextClusterNo();
    if clusterNo == 0 {
      r := x.AllocateCluster();
    } else {
      r := Some(clusterNo);
    }
  }

  lemma AheadInDataArea(g: Geo, blocked: seq<Extent>, s0: State, s: State, no: nat, own: set<nat>, rest: seq<nat>,
                        more: seq<nat>,
                        blocks: seq<nat>, done: seq<Listed>)
    requires g.Valid() && Closed(g, blocked, s0, s, no, own, rest + more, blocks, done)
    ensures InDataArea(rest)
  {
    hide Geo.GroupsHoldMetadata, Describes, ReadDir, UnitExts, Between;
    forall i | 0 <= i < |rest| ensures FAT_START_INDEX <= rest[i] {
      assert (rest + more)[i] in rest + more;
    }
  }

  lemma ClosedIsOpen(g: Geo, blocked: seq<Extent>, s0: State, s: State, no: nat, own: set<nat>, ahead: seq<nat>,
                     blocks: seq<nat>, done: seq<Listed>)
    requires g.Valid() && Closed(g, blocked, s0, s, no, own, ahead, blocks, done)
    ensures no in s.inodes && no !in s.sealed
  {
  }

  ghost predicate NotFinal(final: map<nat, Cluster>, clusters: seq<nat>) {
    forall c :: c in clusters ==> c !in final
  }

  /** The next block is at the head of what waits. */
  method OpenBlock(x: Ext4Volume, no: nat, it: ExtentIterator, ghost s0: State, ghost own: set<nat>,
                   ghost more: seq<nat>,
                   ghost blocks: seq<nat>, ghost done: seq<Listed>)
    returns (r: Option<nat>)
    requires x.Valid() && x.groups.g.Valid() && it.stream.vol == x.vol && it.Valid() && NotFinal(x.final, it.Rest())
    requires Closed(x.groups.g, x.vol.allocator.blocked, s0, x.Now(), no, own, it.Rest() + more, blocks, done)
    modifies it, it.stream, x.vol`payload, x.vol.allocator, x.vol.allocator.bitmap
    ensures r.None? ==> x.Stopped(x.final)
    ensures Frugal(old(x.Now()), x.Now(), 1)
    ensures r.Some? ==>
              && x.Valid() && it.Valid() && NotFinal(x.final, it.Rest()) && r.value !in x.final
              && Closed(x.groups.g, x.vol.allocator.blocked, s0, x.Now(), no, own, [r.value] + (it.Rest() + more),
                        blocks, done)
  {
    hide Ext4Volume.Valid, Closed, Claimed, ExtentIterator.Rest, Geo.GroupsHoldMetadata, Reading, Balanced;
    ghost var g, blocked, rest, s := x.groups.g, x.vol.allocator.blocked, it.Rest(), x.Now();
    AheadInDataArea(g, blocked, s0, s, no, own, rest, more, blocks, done);
    x.ValidIsBalanced();
    r := NextDirBlock(x, it);
    if r.None? { return; }
    if rest != [] {
      assert rest == [rest[0]] + rest[1..];
      assert rest + more == [r.value] + (it.Rest() + more);
    } else {
      assert rest + more == more && [] + more == more;
      BlockClaimed(g, blocked, x.groups.books, s0, s, x.Now(), no, own, r.value, more, blocks, done);
    }
  }

  /** A record goes into the current block if it fits, or else into a new one. */
  method AddRecord(x: Ext4Volume, no: nat, it: ExtentIterator, cur: DirCursor, rec: DirRecord, ghost item: Listed,
                   ghost s0: State, ghost own: set<nat>, ghost more: seq<nat>,
                   ghost blocks: seq<nat>, ghost done: seq<Listed>, ghost items: seq<Listed>)
    returns (outcome: Outcome, cur': DirCursor, ghost blocks': seq<nat>, ghost done': seq<Listed>,
             ghost items': seq<Listed>)
    requires x.Valid() && x.groups.g.Valid() && it.stream.vol == x.vol && it.Valid() && NotFinal(x.final, it.Rest())
    requires rec == BuildRecord(item) && |item.name| <= NAME_LIMIT
    requires Building(x.groups.g, x.vol.allocator.blocked, s0, x.Now(), no, own, it.Rest() + more, cur, blocks, done,
                      items)
    modifies x`inodes, x`registered, x`owner, x.vol`payload, x.vol.disk, x.vol.allocator, x.vol.allocator.bitmap
    modifies x.groups`books, x.groups.memory, x.groups.groupDescs, it, it.stream
    ensures !outcome.Done? ==> Failed(x, outcome, old(x.final))
    ensures Spending(old(x.Now()), x.Now(), outcome, 2, 0)
    ensures outcome.Done? ==>
              && x.Valid() && it.Valid() && NotFinal(x.final, it.Rest()) && no in old(x.inodes)
              && Building(x.groups.g, x.vol.allocator.blocked, s0, x.Now(), no, own, it.Rest() + more, cur', blocks',
                          done', items')
              && done' + items' == done + items + [item] && old(x.registered) <= x.registered
              && x.inodes
                 == old(x.inodes)[no := old(x.inodes[no]).(root := x.inodes[no].root, blocks := x.inodes[no].blocks)]
              && cur'.Reach() == WithRecord(x.groups.g.blockSize, cur.Reach(), item.name)
              && OnlyGains(old(x.Now()), x.Now(), no)
    ensures outcome.TreeOverflow? ==> cur.blockCount > MaxEntries(x.groups.g)
  {
    hide Ext4Volume.Valid, Closed, ExtentIterator.Rest, Geo.GroupsHoldMetadata, Reading, RecLen, Packed, Offset,
         Frugal, Spending;
    x.ValidShape();
    RecLenBounds(item.name);
    ghost var g, blocked, s := x.groups.g, x.vol.allocator.blocked, x.Now();
    ClosedIsOpen(g, blocked, s0, x.Now(), no, own, [cur.cluster] + (it.Rest() + more), blocks, done);
    cur', blocks', done', items', outcome := cur, blocks, done, items, Done;
    if rec.recLen > x.groups.g.blockSize - cur.position {
      outcome := FinishBlock(x, no, cur, s0, own, it.Rest() + more, blocks, done, items);
      ghost var t := x.Now();
      SpendingMore(s, t, outcome, 1, 2, 0);
      if !outcome.Done? { return; }
      blocks', done' := blocks + [cur.cluster], done + items;
      var r := OpenBlock(x, no, it, s0, own, more, blocks', done');
      FinishedThenOpened(s, t, x.Now());
      if r.None? {
        outcome := Outcome.DiskFull;
        return;
      }
      FirstRecord(g, blocked, s0, x.Now(), no, own, r.value, it.Rest() + more, blocks', done', item);
      ghost var u := x.Now();
      WriteRecord(x, r.value, 0, rec);
      SpendingSame(s, s, u, x.Now(), Done, 2, 0);
      cur', items' := DirCursor(r.value, cur.blockCount + 1, 0, rec.recLen), [item];
    } else {
      NextRecord(g, blocked, s0, x.Now(), no, own, it.Rest() + more, cur, blocks, done, items, item);
      WriteRecord(x, cur.cluster, cur.position, rec);
      cur', items' := cur.(previous := cur.position, position := cur.position + rec.recLen), items + [item];
      assert done + (items + [item]) == done + items + [item];
      FrugalReflexive(s, x.Now());
      FrugalEnds(s, x.Now(), Done, 0, 2, 0);
    }
  }

  lemma FrugalReflexive(s: State, t: State)
    requires t.remaining == s.remaining && t.nextInode == s.nextInode
    ensures Frugal(s, t, 0)
  {
  }

  lemma FrugalSame(s: State, t: State, u: State, n: int)
    requires Frugal(s, t, n) && u.remaining == t.remaining && u.nextInode == t.nextInode
    ensures Frugal(s, u, n)
  {
  }

  lemma FinishedThenOpened(s: State, t: State, u: State)
    requires Spending(s, t, Done, 1, 0) && Frugal(t, u, 1) && u.nextInode == t.nextInode
    ensures Spending(s, u, Done, 2, 0) && Spending(s, u, Outcome.DiskFull, 2, 0)
  {
  }

  // --- The clusters of a forest --------------------------------------------------------

  /** The clusters of the directories of a forest. */
  ghost function DirPlaces(es: seq<MovedEntry>): seq<nat>
    decreases es, 0
  {
    if es == [] then [] else DirPlaces(es[..|es| - 1]) + DirPlacesEntry(Last(es))
  }

  ghost function DirPlacesEntry(e: MovedEntry): seq<nat>
    decreases e, 1
  {
    (if IsDir(e.record) then Clusters(e.place) else []) + DirPlaces(e.children)
  }

  lemma {:induction false} PlacesAppend(a: seq<MovedEntry>, b: seq<MovedEntry>)
    ensures Places(a + b) == Places(a) + Places(b)
    ensures DirPlaces(a + b) == DirPlaces(a) + DirPlaces(b)
    decreases |b|
  {
    hide Places, DirPlaces, PlacesEntry, DirPlacesEntry;
    if b == [] {
      assert a + b == a;
      NothingLeft();
    } else {
      var init, last := b[..|b| - 1], Last(b);
      PlacesAppend(a, init);
      assert b == init + [last] && a + b == (a + init) + [last];
      PlacesSnoc(a + init, last);
      PlacesSnoc(init, last);
      DirPlacesSnoc(a + init, last);
      DirPlacesSnoc(init, last);
    }
  }

  lemma DirPlacesSnoc(es: seq<MovedEntry>, e: MovedEntry)
    ensures DirPlaces(es + [e]) == DirPlaces(es) + DirPlacesEntry(e)
  {
    assert (es + [e])[..|es|] == es;
  }

  lemma PlacesFrom(es: seq<MovedEntry>, i: nat)
    requires i < |es|
    ensures Places(es[i..]) == PlacesEntry(es[i]) + Places(es[i + 1..])
    ensures DirPlaces(es[i..]) == DirPlacesEntry(es[i]) + DirPlaces(es[i + 1..])
  {
    hide PlacesEntry, DirPlacesEntry;
    assert es[i..] == [es[i]] + es[i + 1..];
    PlacesAppend([es[i]], es[i + 1..]);
    assert [es[i]][..0] == [];
  }

  // --- Directories ---------------------------------------------------------------------

  lemma ClosedStarts(g: Geo, blocked: seq<Extent>, s: State, no: nat, ahead: seq<nat>, links: nat)
    requires g.Valid() && no in s.inodes && no !in s.sealed && s.inodes[no] == NewInode(true, links)
    requires Waiting(blocked, s, ahead) && Owned(s, no) == {}
    ensures Closed(g, blocked, s, s, no, SetOf(ahead), ahead, [], [])
  {
    hide Geo.GroupsHoldMetadata;
    EmptyTree(g, s.payload);
    assert Sectors(g, 0) == 0;
  }

  lemma DotRecords(no: nat, parent: nat)
    ensures RecLen(DOT_NAME) == EXT4_DOT_DENTRY_SIZE && RecLen(DOT_DOT_NAME) == EXT4_DOT_DENTRY_SIZE
    ensures Dots(no, parent) == [Listed(no, DOT_NAME)] + [Listed(parent, DOT_DOT_NAME)]
  {
  }

  /** build_dot_dirs */
  method BuildDotDirs(x: Ext4Volume, dirInodeNo: nat, parentInodeNo: nat, c: nat, ghost s0: State,
                      ghost own: set<nat>, ghost ahead: seq<nat>)
    returns (cur: DirCursor)
    requires x.Valid() && x.groups.g.Valid() && c !in x.final
    requires Closed(x.groups.g, x.vol.allocator.blocked, s0, x.Now(), dirInodeNo, own, [c] + ahead, [], [])
    modifies x.vol`payload, x.vol.disk
    ensures x.Valid()
    ensures Building(x.groups.g, x.vol.allocator.blocked, s0, x.Now(), dirInodeNo, own, ahead, cur, [], [],
                     Dots(dirInodeNo, parentInodeNo))
    ensures cur == DirCursor(c, 1, EXT4_DOT_DENTRY_SIZE, 2 * EXT4_DOT_DENTRY_SIZE)
  {
    hide Ext4Volume.Valid, Building, Closed, Geo.GroupsHoldMetadata, RecLen, Dots;
    x.ValidShape();
    DotRecords(dirInodeNo, parentInodeNo);
    ghost var g, blocked, dot, dotDot := x.groups.g, x.vol.allocator.blocked, Listed(dirInodeNo, DOT_NAME),
    Listed(parentInodeNo, DOT_DOT_NAME);
    FirstRecord(g, blocked, s0, x.Now(), dirInodeNo, own, c, ahead, [], [], dot);
    WriteRecord(x, c, 0, DirRecord(dirInodeNo, EXT4_DOT_DENTRY_SIZE, DOT_NAME));
    cur := DirCursor(c, 1, 0, EXT4_DOT_DENTRY_SIZE);
    NextRecord(g, blocked, s0, x.Now(), dirInodeNo, own, ahead, cur, [], [], [dot], dotDot);
    BuildingCurrent(g, blocked, s0, x.Now(), dirInodeNo, own, ahead, cur, [], [], [dot]);
    WriteRecord(x, c, EXT4_DOT_DENTRY_SIZE, DirRecord(parentInodeNo, EXT4_DOT_DENTRY_SIZE, DOT_DOT_NAME));
    cur := DirCursor(c, 1, EXT4_DOT_DENTRY_SIZE, 2 * EXT4_DOT_DENTRY_SIZE);
  }

  lemma BuildingCurrent(g: Geo, blocked: seq<Extent>, s0: State, s: State, no: nat, own: set<nat>, ahead: seq<nat>,
                        cur: DirCursor,
                        blocks: seq<nat>, done: seq<Listed>, items: seq<Listed>)
    requires g.Valid() && Building(g, blocked, s0, s, no, own, ahead, cur, blocks, done, items)
    ensures cur.cluster in s.payload && cur.cluster !in s.final && no in s.inodes && no !in s.sealed
    ensures cur.blockCount == |blocks| + 1
  {
  }

  /** The directory no is done: it lists these entries, and only links to it may still come. */
  ghost predicate DirDone(g: Geo, blocked: seq<Extent>, s0: State, s: State, no: nat, own: set<nat>,
                          items: seq<Listed>, links: nat, blocks: seq<nat>)
    requires g.Valid()
  {
    && no in s.inodes && s.inodes[no].isDir && s.inodes[no].links == links % U16
    && s.inodes[no].size == SetLoHi32(|blocks| * g.blockSize)
    && Closed(g, blocked, s0, s, no, own, [], blocks, items)
  }

  lemma TreeSealed(g: Geo, payload: map<nat, Cluster>, final: map<nat, Cluster>, root: Node, exts: seq<Ext4Extent>)
    requires g.Valid() && TreeHolds(g, payload, root, exts) && Grown(final, payload)
    requires forall c :: c in NodeClusters(g, root) ==> c in final
    ensures Leaves(g, final, root) == Some(exts)
  {
    hide Geo.GroupsHoldMetadata, LeafHolds, MaxEntries, Leaves;
    TreeReads(g, final, root, exts);
  }

  /** The length of a file fits in the low half of a size. */
  lemma SizeStored(r: Record)
    ensures SetLoHi32(FileSize(r)) == Halves(Length(r), 0)
  {
    NumbersRead(r);
  }

  /** A file whose extents have all been registered, once it is sealed. */
  lemma FileSealed(g: Geo, blocked: seq<Extent>, s0: State, s: State, t: State, no: nat, e: MovedEntry)
    requires g.Valid() && Storable(e.place) && Registering(g, blocked, s0, s, no, e.place, |e.place|)
    requires s.inodes[no] == NewInode(false, 1).(size := SetLoHi32(FileSize(e.record)), root := s.inodes[no].root,
                                                 blocks := s.inodes[no].blocks)
    requires t == s.(final := t.final, sealed := s.sealed[no := s.inodes[no]]) && no !in s.sealed
    requires Grown(s.final, t.final) && Grown(t.final, s.payload)
    requires forall c :: c in NodeClusters(g, s.inodes[no].root) ==> c in t.final
    requires forall c :: c in t.final && c !in s.final ==> c in NodeClusters(g, s.inodes[no].root)
    ensures IsFile(g, t.final, Owned(t, no), s.inodes[no], e.record, e.place)
    ensures Between(s0, t, SetOf(Clusters(e.place)), {no})
  {
    hide Geo.GroupsHoldMetadata, TreeHolds, NodeClusters, CountsBlocks, Consumed, Clusters, FileSize, SetLoHi32, Length,
         Waiting, Storable,
         Leaves, InitExtentHeader, ToExt4Extent;
    assert e.place[..|e.place|] == e.place;
    SizeStored(e.record);
    TreeSealed(g, s.payload, t.final, s.inodes[no].root, ToExt4s(g, e.place));
    SealedBetween(s0, s, t, SetOf(Clusters(e.place)), no, NodeClusters(g, s.inodes[no].root));
  }

  lemma SealedBetween(s0: State, s: State, t: State, own: set<nat>, no: nat, clusters: set<nat>)
    requires Between(s0, s, own, {no}) && no in s.inodes && Grown(s.final, t.final) && no !in s.sealed
    requires t == s.(final := t.final, sealed := s.sealed[no := s.inodes[no]])
    requires forall c :: c in t.final && c !in s.final ==> c in clusters
    requires forall c :: c in clusters ==> c in own || c !in s0.payload
    ensures Between(s0, t, own, {no}) && Keeps(s, t)
  {
    hide Consumed;
  }

  lemma DirectorySealed(g: Geo, blocked: seq<Extent>, s0: State, s: State, t: State, no: nat, own: set<nat>,
                        items: seq<Listed>, links: nat, blocks: seq<nat>)
    requires g.Valid() && DirDone(g, blocked, s0, s, no, own, items, links, blocks)
    requires t == s.(final := t.final, sealed := s.sealed[no := s.inodes[no]])
    requires Grown(s.final, t.final) && Grown(t.final, s.payload)
    requires forall c :: c in blocks || c in NodeClusters(g, s.inodes[no].root) ==> c in t.final
    requires forall c :: c in t.final && c !in s.final ==> c in blocks || c in NodeClusters(g, s.inodes[no].root)
    ensures IsDirectory(g, t.final, Owned(t, no), t.sealed[no], items, links)
    ensures Between(s0, t, own, {no}) && Keeps(s, t)
  {
    hide Geo.GroupsHoldMetadata, TreeHolds, NodeClusters, CountsBlocks, Consumed, SetLoHi32, Waiting, ReadDir, UnitExts;
    TreeSealed(g, s.payload, t.final, s.inodes[no].root, UnitExts(g, blocks));
    ReadDirStable(s.payload, t.final, g.blockSize, blocks);
    SealedBetween(s0, s, t, own, no, SetOf(blocks) + NodeClusters(g, s.inodes[no].root));
    assert DirectoryIn(g, t.final, Owned(t, no), t.sealed[no], items, links, blocks);
  }

  /** The end of an entry in the archive: its extents, and its children or the mark of a file. */
  ghost function BelowName(e: MovedEntry): seq<seq<Item>> {
    [ExtentItems(e.place)] + if IsDir(e.record) then EncodeDir(e.children) else [[CountItem(NO_CHILDREN)]]
  }

  lemma EntryParts(e: MovedEntry)
    ensures EncodeEntry(e) == [[DentryItem(e.record)]] + ([NameItems(e.name)] + BelowName(e))
    ensures |EncodeEntry(e)| == 2 + |BelowName(e)|
  {
  }

  /** What is built below an entry's record. */
  ghost predicate Below(g: Geo, s0: State, s: State, no: nat, parent: nat, e: MovedEntry)
    requires g.Valid()
  {
    && EntryBuilt(g, s, no, parent, e)
    && Between(s0, s, SetOf(PlacesEntry(e)), {no})
    && s.nextInode == s0.nextInode + EntryCount(e.children)
  }

  /** A file of the loop in build_ext4_metadata_tree. */
  method BuildFile(x: Ext4Volume, no: nat, record: Record, read: StreamArchiver, ghost parent: nat, ghost p: nat,
                   ghost e: MovedEntry)
    returns (outcome: Outcome)
    requires x.Valid() && x.groups.g.Valid() && x.Open(no) && read.vol == x.vol && x.inodes[no] == NewInode(false, 1)
    requires record == e.record && !IsDir(e.record) && e.children == [] && Tiled(e.place, 0)
    requires Ahead(x.vol.log, p, BelowName(e)) && CursorAt(x.vol.log, read.Pos(), p, 0)
    requires Waiting(x.vol.allocator.blocked, x.Now(), PlacesEntry(e))
    requires Owned(x.Now(), no) == {}
    modifies read, x`inodes, x`registered, x`owner, x`final, x`sealed, x.vol`payload, x.vol.disk, x.vol.allocator
    modifies x.vol.allocator.bitmap
    modifies x.groups`books, x.groups.memory, x.groups.groupDescs
    ensures !outcome.Done? ==> Failed(x, outcome, old(x.final))
    ensures Spending(old(x.Now()), x.Now(), outcome, 1, 0)
    ensures outcome.Done? ==>
              && x.Valid() && Below(x.groups.g, old(x.Now()), x.Now(), no, parent, e)
              && CursorAt(x.vol.log, read.Pos(), p + |BelowName(e)|, 0)
    ensures outcome.Done? ==> EntryFits(x.groups.g, e)
    ensures outcome.TreeOverflow? ==> !EntryFits(x.groups.g, e)
  {
    hide Ext4Volume.Valid, Between, CursorAt, Registering, Waiting, Tiled, Clusters, Geo.GroupsHoldMetadata,
         NodeClusters, FileSize,
         SetLoHi32, MetaExtents, MaxEntries, IsFile, Storable, Frugal, Spending, Failed, Owned, Ahead,
         Ext4Volume.Stopped, ExtentAllocator.Remaining, ExtentItems;
    ghost var g, blocked, s0 := x.groups.g, x.vol.allocator.blocked, x.Now();
    assert PlacesEntry(e) == Clusters(e.place);
    AheadSplit(x.vol.log, p, [ExtentItems(e.place)], [[CountItem(NO_CHILDREN)]]);
    AheadSplit(x.vol.log, p + 1, [[CountItem(NO_CHILDREN)]], []);
    outcome := SetExtents(x, no, record, read, p, e.place);
    if !outcome.Done? { return; }
    ghost var s := x.Now();
    RegisteringKeepsLog(g, blocked, s0, s, no, e.place, |e.place|);
    SkipSegment(x, read, COUNT_SIZE, p + 1, 0);
    SealFile(x, no, s0, e);
    SpendingSame(s0, s0, s, x.Now(), outcome, 1, 0);
  }

  /** A file whose extents have been registered is sealed. */
  ghost method SealFile(x: Ext4Volume, no: nat, s0: State, e: MovedEntry)
    requires x.Valid() && x.groups.g.Valid() && x.Open(no) && Storable(e.place)
    requires Registering(x.groups.g, x.vol.allocator.blocked, s0, x.Now(), no, e.place, |e.place|)
    requires x.inodes[no]
             == NewInode(false, 1).(size := SetLoHi32(FileSize(e.record)), root := x.inodes[no].root,
                                    blocks := x.inodes[no].blocks)
    modifies x`final, x`sealed
    ensures x.Valid() && no in x.sealed
    ensures IsFile(x.groups.g, x.final, Owned(x.Now(), no), x.sealed[no], e.record, e.place)
    ensures Between(s0, x.Now(), SetOf(Clusters(e.place)), {no})
  {
    hide Ext4Volume.Valid, Between, Registering, Clusters, Geo.GroupsHoldMetadata, NodeClusters, FileSize, SetLoHi32,
         MetaExtents, IsFile, Storable, Owned, ExtentAllocator.Remaining;
    var g, blocked, s := x.groups.g, x.vol.allocator.blocked, x.Now();
    RegisteringKeepsLog(g, blocked, s0, s, no, e.place, |e.place|);
    x.FinalIsOnDisk();
    x.Seal(no, NodeClusters(g, x.inodes[no].root));
    x.FinalIsOnDisk();
    FileSealed(g, blocked, s0, s, x.Now(), no, e);
  }

  lemma RegisteringKeepsLog(g: Geo, blocked: seq<Extent>, s0: State, s: State, no: nat, place: seq<Extent>, k: nat)
    requires g.Valid() && Storable(place) && Registering(g, blocked, s0, s, no, place, k)
    ensures s.log == s0.log && no in s.inodes && NodeClusters(g, s.inodes[no].root) <= s.payload.Keys
  {
    hide Geo.GroupsHoldMetadata, Describes, Waiting, Clusters, Consumed, NodeClusters;
    NodesInPayload(g, s, s.inodes[no], ToExt4s(g, place[..k]));
  }

  lemma NodesInPayload(g: Geo, s: State, inode: Inode, exts: seq<Ext4Extent>)
    requires EXTENT_HEADER_SIZE <= g.blockSize && Describes(g, s, inode, exts)
    ensures NodeClusters(g, inode.root) <= s.payload.Keys
  {
    hide Geo.E4BlkToFatCl, ChildBlock, CountsBlocks, MaxEntries;
  }

  /** A directory of that loop. */
  method BuildSubdir(x: Ext4Volume, no: nat, parent: nat, read: StreamArchiver, ghost p: nat, ghost e: MovedEntry)
    returns (outcome: Outcome)
    requires x.Valid() && x.groups.g.Valid() && x.Open(no) && read.vol == x.vol && x.inodes[no] == NewInode(true, 2)
    requires x.firstFreeInodeNo == no + 1 && IsDir(e.record) && Tiled(e.place, 0) && Tidy(e.children)
    requires Ahead(x.vol.log, p, BelowName(e)) && CursorAt(x.vol.log, read.Pos(), p, 0)
    requires Waiting(x.vol.allocator.blocked, x.Now(), PlacesEntry(e)) && NotFinal(x.final, DirPlacesEntry(e))
    requires Owned(x.Now(), no) == {}
    modifies read, x, x.vol`payload, x.vol.disk, x.vol.allocator, x.vol.allocator.bitmap
    modifies x.groups`books, x.groups.memory, x.groups.groupDescs
    ensures !outcome.Done? ==> Failed(x, outcome, old(x.final))
    ensures Spending(old(x.Now()), x.Now(), outcome, 2, EntryCount(e.children))
    ensures outcome.Done? ==>
              && x.Valid() && Below(x.groups.g, old(x.Now()), x.Now(), no, parent, e)
              && CursorAt(x.vol.log, read.Pos(), p + |BelowName(e)|, 0)
    ensures outcome.Done? ==> EntryFits(x.groups.g, e)
    ensures outcome.TreeOverflow? ==> !EntryFits(x.groups.g, e)
    decreases e, 1
  {
    hide Ext4Volume.Valid, Between, CursorAt, Waiting, Tiled, Tidy, Clusters, Geo.GroupsHoldMetadata, NodeClusters,
         SetLoHi32, MetaExtents,
         MaxEntries, Describes, TreeBuilt, IsDirectory, ListingOf, SubdirCount, EntryCount, DirDone, Places, DirPlaces,
         EncodeDir, Keeps;
    ghost var g, blocked, s0 := x.groups.g, x.vol.allocator.blocked, x.Now();
    ghost var blocks;
    outcome, blocks := BuildDir(x, no, parent, read, p, e.place, e.children, 2);
    if !outcome.Done? { return; }
    ghost var s := x.Now();
    DirDoneClusters(g, blocked, s0, s, no, SetOf(PlacesEntry(e)),
                    ListingOf(no, parent, no + 1, e.children, |e.children|),
                    2 + SubdirCount(e.children), blocks);
    ghost var clusters := SetOf(blocks) + NodeClusters(g, x.inodes[no].root);
    x.FinalIsOnDisk();
    x.Seal(no, clusters);
    x.FinalIsOnDisk();
    DirectorySealed(g, blocked, s0, s, x.Now(), no, SetOf(PlacesEntry(e)),
                    ListingOf(no, parent, no + 1, e.children, |e.children|),
                    2 + SubdirCount(e.children), blocks);
    TreeStable(g, s, x.Now(), no + 1, no, e.children, |e.children|);
  }

  lemma DirDoneClusters(g: Geo, blocked: seq<Extent>, s0: State, s: State, no: nat, own: set<nat>,
                        items: seq<Listed>, links: nat, blocks: seq<nat>)
    requires g.Valid() && DirDone(g, blocked, s0, s, no, own, items, links, blocks)
    ensures no in s.inodes && no !in s.sealed && SetOf(blocks) + NodeClusters(g, s.inodes[no].root) <= s.payload.Keys
    ensures s.log == s0.log
  {
    hide Geo.GroupsHoldMetadata, Describes, Waiting, Consumed, NodeClusters, ReadDir;
    NodesInPayload(g, s, s.inodes[no], UnitExts(g, blocks));
  }

  lemma BuildingStable(g: Geo, blocked: seq<Extent>, s0: State, s: State, t: State, no: nat, own: set<nat>,
                       ahead: seq<nat>, ahead2: seq<nat>,
                       cur: DirCursor, blocks: seq<nat>, done: seq<Listed>, items: seq<Listed>, other: set<nat>,
                       mine: set<nat>)
    requires g.Valid() && Building(g, blocked, s0, s, no, own, ahead, cur, blocks, done, items)
    requires Between(s, t, other, mine) && (forall k :: k in mine ==> k !in s0.inodes && k != no)
    requires forall c :: c in other ==> (c in own || c !in s0.payload) && c !in s.registered && c != cur.cluster
    requires Waiting(blocked, t, [cur.cluster] + ahead2)
    requires forall c :: c in [cur.cluster] + ahead2 ==> c in own || c !in s0.payload
    ensures Building(g, blocked, s0, t, no, own, ahead2, cur, blocks, done, items)
  {
    hide Geo.GroupsHoldMetadata, Closed, Packed, Offset, Consumed, Waiting;
    ClosedIsOpen(g, blocked, s0, s, no, own, [cur.cluster] + ahead, blocks, done);
    ClosedStable(g, blocked, s0, s, t, no, own, [cur.cluster] + ahead, [cur.cluster] + ahead2, blocks, done, other,
                 mine);
  }

  lemma DistinctDrop(a: seq<nat>, b: seq<nat>, c: seq<nat>)
    requires Distinct(a + (b + c))
    ensures Distinct(a + c) && Distinct(b)
    ensures forall x :: x in b ==> x !in a + c
  {
    var all := a + (b + c);
    forall i, j | 0 <= i < j < |a + c| ensures (a + c)[i] != (a + c)[j] {
      var i', j' := if i < |a| then i else i + |b|, if j < |a| then j else j + |b|;
      assert all[i'] == (a + c)[i] && all[j'] == (a + c)[j];
    }
    forall i, j | 0 <= i < j < |b| ensures b[i] != b[j] {
      assert all[|a| + i] == b[i] && all[|a| + j] == b[j];
    }
    forall i, j | 0 <= i < |b| && 0 <= j < |a + c| ensures b[i] != (a + c)[j] {
      var j' := if j < |a| then j else j + |b|;
      assert all[|a| + i] == b[i] && all[j'] == (a + c)[j];
    }
  }

  /** The clusters of the next entry wait among the others. */
  lemma EntryWaits(g: Geo, blocked: seq<Extent>, s0: State, s: State, no: nat, own: set<nat>, c: nat, rest: seq<nat>,
                   mid: seq<nat>, tail: seq<nat>,
                   blocks: seq<nat>, done: seq<Listed>)
    requires g.Valid() && Closed(g, blocked, s0, s, no, own, [c] + (rest + (mid + tail)), blocks, done)
    ensures Waiting(blocked, s, mid) && Waiting(blocked, s, [c] + (rest + tail))
    ensures forall k :: k in mid ==> k !in [c] + (rest + tail) && k != c
    ensures forall k :: k in mid ==> k !in s.registered && (k in own || k !in s0.payload)
    ensures forall k :: k in [c] + (rest + tail) ==> k in own || k !in s0.payload
  {
    hide Geo.GroupsHoldMetadata, Describes, ReadDir, UnitExts, Between;
    var all := [c] + (rest + (mid + tail));
    assert all == ([c] + rest) + (mid + tail) && ([c] + rest) + tail == [c] + (rest + tail);
    DistinctDrop([c] + rest, mid, tail);
    forall k | k in mid || k in [c] + (rest + tail) ensures k in all {
    }
    assert c in [c] + (rest + tail);
  }

  /** A new inode, or a new link, leaves the directory under construction as it is. */
  lemma BuildingInode(g: Geo, blocked: seq<Extent>, books: Books, s0: State, s: State, t: State, no: nat,
                      own: set<nat>, ahead: seq<nat>,
                      cur: DirCursor, blocks: seq<nat>, done: seq<Listed>, items: seq<Listed>)
    requires g.Valid() && Building(g, blocked, s0, s, no, own, ahead, cur, blocks, done, items) && Balanced(g, books, s)
    requires t == s.(nextInode := s.nextInode + 1, inodes := t.inodes)
    requires s.nextInode in t.inodes && t.inodes == s.inodes[s.nextInode := t.inodes[s.nextInode]]
    ensures Building(g, blocked, s0, t, no, own, ahead, cur, blocks, done, items)
    ensures no in s.inodes && s.nextInode !in s0.inodes && s.nextInode != no && Keeps(s, t)
  {
    hide Geo.GroupsHoldMetadata, Describes, ReadDir, UnitExts, Distinct, Packed, Offset;
    NewInodeBetween(g, books, s, t);
    assert s.nextInode !in s.inodes;
    BuildingStable(g, blocked, s0, s, t, no, own, ahead, ahead, cur, blocks, done, items, {}, {});
  }

  lemma NewInodeBetween(g: Geo, books: Books, s: State, t: State)
    requires Balanced(g, books, s) && t == s.(nextInode := s.nextInode + 1, inodes := t.inodes)
    requires s.nextInode in t.inodes && t.inodes == s.inodes[s.nextInode := t.inodes[s.nextInode]]
    ensures Between(s, t, {}, {}) && Keeps(s, t)
  {
  }

  lemma WaitingSame(blocked: seq<Extent>, s: State, t: State, own: seq<nat>)
    requires Waiting(blocked, s, own) && t.payload == s.payload && t.registered == s.registered
    ensures Waiting(blocked, t, own)
  {
  }

  lemma BetweenInode(s0: State, s: State, own: set<nat>, no: nat, inode: Inode)
    requires Between(s0, s, own, {no}) && no in s.inodes
    ensures Between(s0, s.(inodes := s.inodes[no := inode]), own, {no})
  {
    hide Consumed;
  }

  /** The fields of an inode beside its contents do not matter to the directory under construction. */
  lemma ClosedInode(g: Geo, blocked: seq<Extent>, s0: State, s: State, no: nat, own: set<nat>, ahead: seq<nat>,
                    blocks: seq<nat>, done: seq<Listed>, inode: Inode)
    requires g.Valid() && Closed(g, blocked, s0, s, no, own, ahead, blocks, done) && no in s.inodes
    requires inode.root == s.inodes[no].root && inode.blocks == s.inodes[no].blocks
    ensures var t := s.(inodes := s.inodes[no := inode]);
            && Closed(g, blocked, s0, t, no, own, ahead, blocks, done)
            && Closed(g, blocked, s0, t, no, own, [], blocks, done)
  {
    hide Geo.GroupsHoldMetadata, ReadDir, UnitExts, TreeHolds, CountsBlocks, NodeClusters, Owned, SetOf, Between;
    var t := s.(inodes := s.inodes[no := inode]);
    OwnedSame(s, t, no);
    BetweenInode(s0, s, own, no, inode);
    WaitingSame(blocked, s, t, ahead);
  }

  lemma BuildingLinks(g: Geo, blocked: seq<Extent>, s0: State, s: State, no: nat, own: set<nat>, ahead: seq<nat>,
                      links: nat,
                      cur: DirCursor, blocks: seq<nat>, done: seq<Listed>, items: seq<Listed>)
    requires g.Valid() && Building(g, blocked, s0, s, no, own, ahead, cur, blocks, done, items) && no in s.inodes
    ensures Building(g, blocked, s0, s.(inodes := s.inodes[no := s.inodes[no].(links := links)]), no, own, ahead, cur,
                     blocks, done, items)
  {
    hide Geo.GroupsHoldMetadata, Closed, Packed, Offset;
    ClosedIsOpen(g, blocked, s0, s, no, own, [cur.cluster] + ahead, blocks, done);
    ClosedInode(g, blocked, s0, s, no, own, [cur.cluster] + ahead, blocks, done, s.inodes[no].(links := links));
  }

  /** The record of an entry, and the cut behind it. */
  method ReadRecord(x: Ext4Volume, read: StreamArchiver, ghost p: nat, ghost e: MovedEntry) returns (record: Record)
    requires x.Valid() && read.vol == x.vol
    requires Ahead(x.vol.log, p, EncodeEntry(e)) && CursorAt(x.vol.log, read.Pos(), p, 0)
    modifies read
    ensures record == e.record && CursorAt(x.vol.log, read.Pos(), p + 1, 0)
    ensures Ahead(x.vol.log, p + 1, [NameItems(e.name)]) && Ahead(x.vol.log, p + 2, BelowName(e))
  {
    hide Ext4Volume.Valid, CursorAt, EncodeEntry, BelowName, Ahead, NameItems;
    EntryParts(e);
    AheadSplit(x.vol.log, p, [[DentryItem(e.record)]], [NameItems(e.name)] + BelowName(e));
    AheadSplit(x.vol.log, p + 1, [NameItems(e.name)], BelowName(e));
    var item := NextItem(x, read, DENTRY_SIZE, p, 0);
    record := item.value.record;
    item := NextItem(x, read, DENTRY_SIZE, p, 1);
  }

  /** The record of an entry is built and put into the directory. */
  method ListEntry(x: Ext4Volume, no: nat, inodeNumber: nat, read: StreamArchiver, it: ExtentIterator, cur: DirCursor,
                   ghost s0: State, ghost own: set<nat>, ghost p: nat, ghost name: seq<seq<Unit>>, ghost more: seq<nat>,
                   ghost blocks: seq<nat>, ghost done: seq<Listed>, ghost items: seq<Listed>)
    returns (outcome: Outcome, cur': DirCursor, ghost blocks': seq<nat>, ghost done': seq<Listed>,
             ghost items': seq<Listed>)
    requires x.Valid() && x.groups.g.Valid() && it.stream.vol == x.vol && read.vol == x.vol && it.stream != read
    requires it.Valid() && NotFinal(x.final, it.Rest())
    requires Building(x.groups.g, x.vol.allocator.blocked, s0, x.Now(), no, own, it.Rest() + more, cur, blocks, done,
                      items)
    requires Ahead(x.vol.log, p, [NameItems(name)]) && CursorAt(x.vol.log, read.Pos(), p, 0)
    modifies read, x`inodes, x`registered, x`owner, x.vol`payload, x.vol.disk, x.vol.allocator, x.vol.allocator.bitmap
    modifies x.groups`books, x.groups.memory, x.groups.groupDescs, it, it.stream
    ensures !outcome.Done? ==> Failed(x, outcome, old(x.final))
    ensures Spending(old(x.Now()), x.Now(), outcome, 2, 0)
    ensures outcome.Done? ==>
              && x.Valid() && it.Valid() && NotFinal(x.final, it.Rest()) && no in old(x.inodes)
              && Building(x.groups.g, x.vol.allocator.blocked, s0, x.Now(), no, own, it.Rest() + more, cur',
                          blocks', done', items')
              && done' + items' == done + items + [Listed(inodeNumber, EncodeName(name))]
              && old(x.registered) <= x.registered && OnlyGains(old(x.Now()), x.Now(), no)
              && x.inodes
                 == old(x.inodes)[no := old(x.inodes[no]).(root := x.inodes[no].root, blocks := x.inodes[no].blocks)]
              && cur'.Reach() == WithRecord(x.groups.g.blockSize, cur.Reach(), EncodeName(name))
              && CursorAt(x.vol.log, read.Pos(), p + 1, 0)
    ensures outcome.TreeOverflow? ==> cur.blockCount > MaxEntries(x.groups.g)
  {
    hide Ext4Volume.Valid, CursorAt, Building, Geo.GroupsHoldMetadata, MetaExtents, ExtentIterator.Rest, Reading,
         ExtentIterator.Valid, Ahead, WithRecord, MaxEntries, NameItems, OnlyGains, NotFinal, EncodeName, RecLen;
    ghost var item := Listed(inodeNumber, EncodeName(name));
    var rec := BuildDentry(x, inodeNumber, read, p, name);
    outcome, cur', blocks', done', items' := AddRecord(x, no, it, cur, rec, item, s0, own, more, blocks, done, items);
  }

  /** The first half of a turn in build_ext4_metadata_tree: the inode, and the record of the
      entry in the directory. */
  method EnterEntry(x: Ext4Volume, no: nat, read: StreamArchiver, it: ExtentIterator, cur: DirCursor,
                    ghost s0: State, ghost own: set<nat>, ghost p: nat, ghost e: MovedEntry, ghost more: seq<nat>,
                    ghost blocks: seq<nat>, ghost done: seq<Listed>, ghost items: seq<Listed>)
    returns (outcome: Outcome, record: Record, inodeNumber: nat, cur': DirCursor,
             ghost blocks': seq<nat>, ghost done': seq<Listed>, ghost items': seq<Listed>)
    requires x.Valid() && x.groups.g.Valid() && it.stream.vol == x.vol && read.vol == x.vol && it.stream != read
    requires it.Valid() && NotFinal(x.final, it.Rest())
    requires Building(x.groups.g, x.vol.allocator.blocked, s0, x.Now(), no, own, it.Rest() + more, cur, blocks, done,
                      items)
    requires Ahead(x.vol.log, p, EncodeEntry(e)) && CursorAt(x.vol.log, read.Pos(), p, 0)
    modifies read, x`inodes, x`firstFreeInodeNo, x`registered, x`owner, x.vol`payload, x.vol.disk, x.vol.allocator
    modifies x.vol.allocator.bitmap
    modifies x.groups`books, x.groups.memory, x.groups.groupDescs, it, it.stream
    ensures !outcome.Done? ==> Failed(x, outcome, old(x.final))
    ensures Spending(old(x.Now()), x.Now(), outcome, 0, 1)
    ensures outcome.Done? ==> Frugal(old(x.Now()), x.Now(), -2)
    ensures outcome.Done? ==>
              && x.Valid() && it.Valid() && NotFinal(x.final, it.Rest())
              && Building(x.groups.g, x.vol.allocator.blocked, s0, x.Now(), no, own, it.Rest() + more, cur', blocks',
                          done', items')
              && inodeNumber == old(x.firstFreeInodeNo) && x.firstFreeInodeNo == inodeNumber + 1 && x.Open(inodeNumber)
              && done' + items' == done + items + [Listed(inodeNumber, EncodeName(e.name))]
              && Keeps(old(x.Now()), x.Now()) && inodeNumber !in s0.inodes && inodeNumber != no && no in old(x.inodes)
              && Owned(x.Now(), inodeNumber) == {}
              && record == e.record
              && x.inodes[inodeNumber] == NewInode(IsDir(e.record), if IsDir(e.record) then 2 else 1)
              && no in x.inodes
              && x.inodes[no] == old(x.inodes[no]).(root := x.inodes[no].root, blocks := x.inodes[no].blocks)
              && Ahead(x.vol.log, p + 2, BelowName(e)) && CursorAt(x.vol.log, read.Pos(), p + 2, 0)
              && x.vol.log == old(x.vol.log)
              && cur'.Reach() == WithRecord(x.groups.g.blockSize, cur.Reach(), EncodeName(e.name))
    ensures outcome.TreeOverflow? ==> cur.blockCount > MaxEntries(x.groups.g)
  {
    hide Ext4Volume.Valid, CursorAt, Building, Geo.GroupsHoldMetadata, MetaExtents, EncodeEntry, BelowName,
         ExtentIterator.Rest, Reading, ExtentIterator.Valid, Ahead, Between, WithRecord, MaxEntries, NameItems,
         Geo.InodeGroup, Geo.InodesPerGroup,
         Geo.GroupCount, Grown, Keeps, OnlyGains, Owned,
         NotFinal, NewInode, EncodeName, RecLen, Balanced, ExtentAllocator.Remaining, Failed;
    ghost var g, blocked, s := x.groups.g, x.vol.allocator.blocked, x.Now();
    record := ReadRecord(x, read, p, e);
    cur', blocks', done', items', inodeNumber := cur, blocks, done, items, 0;
    outcome, inodeNumber := NewEntry(x, no, record, s0, own, it.Rest() + more, cur, blocks, done, items);
    if !outcome.Done? { return; }
    ghost var m := x.Now();
    BuildingCurrent(g, blocked, s0, s, no, own, it.Rest() + more, cur, blocks, done, items);
    outcome, cur', blocks', done', items' :=
      ListEntry(x, no, inodeNumber, read, it, cur, s0, own, p + 1, e.name, more, blocks, done, items);
    if !outcome.Done? { return; }
    KeepsLarger(s, m, x.Now(), no);
    OtherGains(m, x.Now(), no, inodeNumber);
  }

  /** build_inode, for an entry of the directory under construction. */
  method NewEntry(x: Ext4Volume, no: nat, record: Record, ghost s0: State, ghost own: set<nat>, ghost ahead: seq<nat>,
                  ghost cur: DirCursor, ghost blocks: seq<nat>, ghost done: seq<Listed>, ghost items: seq<Listed>)
    returns (outcome: Outcome, inodeNumber: nat)
    requires x.Valid() && x.groups.g.Valid()
    requires Building(x.groups.g, x.vol.allocator.blocked, s0, x.Now(), no, own, ahead, cur, blocks, done, items)
    modifies x`inodes, x`firstFreeInodeNo, x.groups`books, x.groups.memory, x.groups.groupDescs
    ensures outcome.Done? || outcome.OutOfInodes?
    ensures outcome.OutOfInodes? ==> Failed(x, outcome, old(x.final))
    ensures Spending(old(x.Now()), x.Now(), outcome, if outcome.Done? then -4 else 0, 1)
    ensures outcome.Done? ==>
              && x.Valid() && inodeNumber == old(x.firstFreeInodeNo) && x.firstFreeInodeNo == inodeNumber + 1
              && x.Open(inodeNumber) && inodeNumber !in s0.inodes && inodeNumber != no && no in old(x.inodes)
              && x.inodes == old(x.inodes)[inodeNumber := NewInode(IsDir(record), if IsDir(record) then 2 else 1)]
              && Building(x.groups.g, x.vol.allocator.blocked, s0, x.Now(), no, own, ahead, cur, blocks, done, items)
              && Keeps(old(x.Now()), x.Now()) && Owned(x.Now(), inodeNumber) == {}
  {
    hide Ext4Volume.Valid, Building, Geo.GroupsHoldMetadata, MetaExtents, Geo.InodeGroup, Geo.InodesPerGroup,
         Geo.GroupCount,
         Keeps, Owned, NewInode, Balanced;
    ghost var g, blocked, s, books := x.groups.g, x.vol.allocator.blocked, x.Now(), x.groups.books;
    x.ValidIsBalanced();
    x.FinalIsOnDisk();
    var r := x.BuildInode(IsDir(record));
    if r.None? { return OutOfInodes, 0; }
    NothingOwned(g, books, s, r.value);
    OwnedSame(s, x.Now(), r.value);
    BuildingInode(g, blocked, books, s0, s, x.Now(), no, own, ahead, cur, blocks, done, items);
    return Done, r.value;
  }

  lemma OwnedSame(s: State, t: State, no: nat)
    requires t.owner == s.owner
    ensures Owned(t, no) == Owned(s, no)
  {
  }

  /** An inode that does not gain clusters still has none. */
  lemma OtherGains(s: State, t: State, no: nat, other: nat)
    requires Owned(s, other) == {} && OnlyGains(s, t, no) && other != no
    ensures Owned(t, other) == {}
  {
    forall c | c in Owned(t, other) ensures c in Owned(s, other) {
    }
  }

  /** What has been built below an entry leaves the directory around it as it is. */
  lemma BuildingBelow(g: Geo, blocked: seq<Extent>, s0: State, s: State, t: State, no: nat, own: set<nat>,
                      rest: seq<nat>, tail: seq<nat>,
                      cur: DirCursor, blocks: seq<nat>, done: seq<Listed>, items: seq<Listed>, entryNo: nat,
                      e: MovedEntry)
    requires g.Valid() && Building(g, blocked, s0, s, no, own, rest + (PlacesEntry(e) + tail), cur, blocks, done, items)
    requires Below(g, s, t, entryNo, no, e) && entryNo !in s0.inodes && entryNo != no
    ensures Building(g, blocked, s0, t, no, own, rest + tail, cur, blocks, done, items)
    ensures EntryBuilt(g, t, entryNo, no, e) && Keeps(s, t) && t.log == s.log
    ensures t.nextInode == s.nextInode + EntryCount(e.children)
    ensures no in s.inodes && no in t.inodes && t.inodes[no] == s.inodes[no]
    ensures forall c :: c in t.final && c !in s.final ==> c in PlacesEntry(e) || c !in s.payload
    ensures forall c :: c in rest + tail ==> c !in PlacesEntry(e) && c in s.payload
  {
    hide Geo.GroupsHoldMetadata, Closed, Filling, PlacesEntry, EntryBuilt, Describes, Distinct, EntryCount;
    ClosedIsOpen(g, blocked, s0, s, no, own, [cur.cluster] + (rest + (PlacesEntry(e) + tail)), blocks, done);
    EntryWaits(g, blocked, s0, s, no, own, cur.cluster, rest, PlacesEntry(e), tail, blocks, done);
    var other := SetOf(PlacesEntry(e));
    WaitingStable(blocked, s, t, [cur.cluster] + (rest + tail), other, {entryNo});
    BuildingStable(g, blocked, s0, s, t, no, own, rest + (PlacesEntry(e) + tail), rest + tail, cur, blocks, done,
                   items, other, {entryNo});
    BetweenKeeps(s, t, other, {entryNo});
    forall c | c in rest + tail ensures c !in PlacesEntry(e) && c in s.payload {
      assert c in [cur.cluster] + (rest + tail);
    }
  }

  lemma StillNotFinal(s: State, t: State, clusters: seq<nat>, own: seq<nat>)
    requires NotFinal(s.final, clusters)
    requires forall c :: c in t.final && c !in s.final ==> c in own || c !in s.payload
    requires forall c :: c in clusters ==> c !in own && c in s.payload
    ensures NotFinal(t.final, clusters)
  {
  }

  /** incr_links_count, for an entry that is a directory. */
  function LinksAfter(links: nat, e: MovedEntry): nat {
    if IsDir(e.record) then (links + 1) % U16 else links
  }

  /** A directory gains a link from each of its subdirectories. */
  method CountSubdir(x: Ext4Volume, no: nat, record: Record, ghost s0: State, ghost own: set<nat>, ghost e: MovedEntry,
                     ghost ahead: seq<nat>, ghost cur: DirCursor, ghost blocks: seq<nat>, ghost done: seq<Listed>,
                     ghost items: seq<Listed>)
    requires x.Valid() && x.groups.g.Valid() && record == e.record
    requires Building(x.groups.g, x.vol.allocator.blocked, s0, x.Now(), no, own, ahead, cur, blocks, done, items)
    modifies x`inodes
    ensures x.Valid() && no in old(x.inodes)
    ensures var inode := old(x.inodes[no]);
            x.Now() == old(x.Now()).(inodes := old(x.inodes)[no := inode.(links := LinksAfter(inode.links, e))])
    ensures Building(x.groups.g, x.vol.allocator.blocked, s0, x.Now(), no, own, ahead, cur, blocks, done, items)
  {
    hide Ext4Volume.Valid, Building, Geo.GroupsHoldMetadata, IsDir;
    ghost var g, blocked := x.groups.g, x.vol.allocator.blocked;
    BuildingCurrent(g, blocked, s0, x.Now(), no, own, ahead, cur, blocks, done, items);
    if IsDir(record) {
      BuildingLinks(g, blocked, s0, x.Now(), no, own, ahead, (x.inodes[no].links + 1) % U16, cur, blocks, done, items);
      x.UpdateInode(no, x.inodes[no].(links := (x.inodes[no].links + 1) % U16));
    }
  }

  /** A turn of the loop in build_ext4_metadata_tree. */
  method BuildEntry(x: Ext4Volume, no: nat, read: StreamArchiver, it: ExtentIterator, cur: DirCursor,
                    ghost s0: State, ghost own: set<nat>, ghost p: nat, ghost e: MovedEntry, ghost tail: seq<nat>,
                    ghost dirTail: seq<nat>,
                    ghost blocks: seq<nat>, ghost done: seq<Listed>, ghost items: seq<Listed>)
    returns (outcome: Outcome, cur': DirCursor, ghost blocks': seq<nat>, ghost done': seq<Listed>,
             ghost items': seq<Listed>)
    requires x.Valid() && x.groups.g.Valid() && it.stream.vol == x.vol && read.vol == x.vol && it.stream != read
    requires it.Valid() && NotFinal(x.final, it.Rest()) && NotFinal(x.final, DirPlacesEntry(e))
    requires NotFinal(x.final, dirTail)
    requires forall c :: c in dirTail ==> c in tail
    requires Building(x.groups.g, x.vol.allocator.blocked, s0, x.Now(), no, own, it.Rest() + (PlacesEntry(e) + tail),
                      cur, blocks, done, items)
    requires Ahead(x.vol.log, p, EncodeEntry(e)) && CursorAt(x.vol.log, read.Pos(), p, 0)
    requires Tiled(e.place, 0) && (!IsDir(e.record) ==> e.children == []) && Tidy(e.children)
    modifies read, x, x.vol`payload, x.vol.disk, x.vol.allocator, x.vol.allocator.bitmap
    modifies x.groups`books, x.groups.memory, x.groups.groupDescs, it, it.stream
    ensures !outcome.Done? ==> Failed(x, outcome, old(x.final))
    ensures Spending(old(x.Now()), x.Now(), outcome, 0, 1 + EntryCount(e.children))
    ensures outcome.Done? ==>
              && x.Valid() && it.Valid() && NotFinal(x.final, it.Rest()) && NotFinal(x.final, dirTail)
              && Building(x.groups.g, x.vol.allocator.blocked, s0, x.Now(), no, own, it.Rest() + tail, cur', blocks',
                          done', items')
              && x.firstFreeInodeNo == old(x.firstFreeInodeNo) + 1 + EntryCount(e.children)
              && done' + items' == done + items + [Listed(old(x.firstFreeInodeNo), EncodeName(e.name))]
              && EntryBuilt(x.groups.g, x.Now(), old(x.firstFreeInodeNo), no, e) && Keeps(old(x.Now()), x.Now())
              && no in old(x.inodes) && no in x.inodes
              && x.inodes[no]
                 == old(x.inodes[no]).(root := x.inodes[no].root, blocks := x.inodes[no].blocks,
                                       links := LinksAfter(old(x.inodes[no]).links, e))
              && CursorAt(x.vol.log, read.Pos(), p + |EncodeEntry(e)|, 0) && x.vol.log == old(x.vol.log)
              && cur'.Reach() == WithRecord(x.groups.g.blockSize, cur.Reach(), EncodeName(e.name))
              && EntryFits(x.groups.g, e)
    ensures outcome.TreeOverflow? ==> cur.blockCount > MaxEntries(x.groups.g) || !EntryFits(x.groups.g, e)
    decreases e, 2
  {
    hide Ext4Volume.Valid, CursorAt, Building, Geo.GroupsHoldMetadata, MetaExtents, EncodeEntry, BelowName,
         ExtentIterator.Rest, Reading,
         EncodeName, Below, PlacesEntry, DirPlacesEntry, Tidy, Tiled, EntryBuilt, EntryCount, Waiting, Ahead, Keeps,
         Balanced, NotFinal, EntryFits, MaxEntries, WithRecord, Between;
    ghost var g, blocked := x.groups.g, x.vol.allocator.blocked;
    EntryParts(e);
    var record, inodeNumber;
    outcome, record, inodeNumber, cur', blocks', done', items' :=
      EnterEntry(x, no, read, it, cur, s0, own, p, e, PlacesEntry(e) + tail, blocks, done, items);
    if !outcome.Done? { return; }
    ghost var m := x.Now();
    CountSubdir(x, no, record, s0, own, e, it.Rest() + (PlacesEntry(e) + tail), cur', blocks', done', items');
    ghost var s := x.Now();
    KeepsSame(old(x.Now()), m, s);
    EntryWaitsBuilding(g, blocked, s0, s, no, own, it.Rest(), tail, cur', blocks', done', items', e);
    if IsDir(record) {
      outcome := BuildSubdir(x, inodeNumber, no, read, p + 2, e);
    } else {
      outcome := BuildFile(x, inodeNumber, record, read, no, p + 2, e);
    }
    if !outcome.Done? { return; }
    BuildingBelow(g, blocked, s0, s, x.Now(), no, own, it.Rest(), tail, cur', blocks', done', items', inodeNumber, e);
    StillNotFinal(s, x.Now(), it.Rest(), PlacesEntry(e));
    StillNotFinal(s, x.Now(), dirTail, PlacesEntry(e));
    KeepsTransitive(old(x.Now()), s, x.Now());
  }

  lemma EntryWaitsBuilding(g: Geo, blocked: seq<Extent>, s0: State, s: State, no: nat, own: set<nat>, rest: seq<nat>,
                           tail: seq<nat>,
                           cur: DirCursor, blocks: seq<nat>, done: seq<Listed>, items: seq<Listed>, e: MovedEntry)
    requires g.Valid() && Building(g, blocked, s0, s, no, own, rest + (PlacesEntry(e) + tail), cur, blocks, done, items)
    ensures Waiting(blocked, s, PlacesEntry(e))
  {
    hide Geo.GroupsHoldMetadata, Closed, Filling, PlacesEntry, Waiting;
    EntryWaits(g, blocked, s0, s, no, own, cur.cluster, rest, PlacesEntry(e), tail, blocks, done);
  }

  /** The start of build_ext4_metadata_tree, up to the loop. */
  method StartDir(x: Ext4Volume, no: nat, parent: nat, read: StreamArchiver, ghost p: nat, ghost place: seq<Extent>,
                  ghost children: seq<MovedEntry>, ghost links: nat)
    returns (ok: bool, it: ExtentIterator, cur: DirCursor, childCount: nat)
    requires x.Valid() && x.groups.g.Valid() && x.Open(no) && read.vol == x.vol && x.inodes[no] == NewInode(true, links)
    requires Ahead(x.vol.log, p, [ExtentItems(place)] + EncodeDir(children)) && CursorAt(x.vol.log, read.Pos(), p, 0)
    requires Waiting(x.vol.allocator.blocked, x.Now(), Clusters(place) + Places(children))
    requires NotFinal(x.final, Clusters(place))
    requires Owned(x.Now(), no) == {}
    modifies read, x.vol`payload, x.vol.disk, x.vol.allocator, x.vol.allocator.bitmap
    ensures fresh(it) && fresh(it.stream) && it.stream.vol == x.vol
    ensures !ok ==> x.Stopped(x.final)
    ensures Frugal(old(x.Now()), x.Now(), 1)
    ensures ok ==>
              && x.Valid() && it.Valid() && NotFinal(x.final, it.Rest()) && childCount == |children|
              && Building(x.groups.g, x.vol.allocator.blocked, old(x.Now()), x.Now(), no,
                          SetOf(Clusters(place) + Places(children)),
                          it.Rest() + Places(children), cur, [], [], Dots(no, parent))
              && Ahead(x.vol.log, p + 2, Encode(children)) && CursorAt(x.vol.log, read.Pos(), p + 2, 0)
              && cur.Reach() == Fill(1, 2 * EXT4_DOT_DENTRY_SIZE)
  {
    hide Ext4Volume.Valid, CursorAt, Building, Closed, Geo.GroupsHoldMetadata, MetaExtents, Encode,
         ExtentIterator.Rest, Reading, Between, Ahead,
         Waiting, Clusters, Places, NewInode, Dots, ArchiveOk, Frugal, Owned, ExtentAllocator.Remaining,
         Ext4Volume.Stopped, NotFinal, AddressOf;
    x.ArchiveIsIntact();
    ghost var log, s0, own := x.vol.log, x.Now(), SetOf(Clusters(place) + Places(children));
    AheadSplit(log, p, [ExtentItems(place)], EncodeDir(children));
    AheadSplit(log, p + 1, [[CountItem(|children|)]], Encode(children));
    ClosedStarts(x.groups.g, x.vol.allocator.blocked, s0, no, Clusters(place) + Places(children), links);
    var extentStream := new StreamArchiver.CopyOf(read);
    it := new ExtentIterator(extentStream, p, place);
    cur, childCount := DirCursor(0, 0, 0, 0), 0;
    var block := OpenBlock(x, no, it, s0, own, Places(children), [], []);
    ghost var s := x.Now();
    if block.None? { return false, it, cur, 0; }
    SkipSegment(x, read, EXTENT_SIZE, p, 0);
    var count := NextItem(x, read, COUNT_SIZE, p + 1, 0);
    childCount := count.value.count;
    count := NextItem(x, read, COUNT_SIZE, p + 1, 1);
    cur := BuildDotDirs(x, no, parent, block.value, s0, own, it.Rest() + Places(children));
    FrugalSame(s0, s, x.Now(), 1);
    ok := true;
  }

  /** i of the entries have been built. */
  ghost predicate Entered(g: Geo, s: State, no: nat, parent: nat, first: nat, children: seq<MovedEntry>, i: nat,
                          links: nat,
                          listed: seq<Listed>)
    requires g.Valid()
  {
    && i <= |children| && TreeBuilt(g, s, first, no, children, i)
    && listed == ListingOf(no, parent, first, children, i) && s.nextInode == NumberOf(first, children, i)
    && no in s.inodes && s.inodes[no].isDir && s.inodes[no].links == (links + SubdirCount(children[..i])) % U16
  }

  lemma EnteredStep(g: Geo, s: State, t: State, no: nat, parent: nat, first: nat, children: seq<MovedEntry>, i: nat,
                    links: nat,
                    listed: seq<Listed>, listed': seq<Listed>)
    requires g.Valid() && Entered(g, s, no, parent, first, children, i, links, listed) && i < |children| && Keeps(s, t)
    requires EntryBuilt(g, t, s.nextInode, no, children[i])
    requires listed' == listed + [Listed(s.nextInode, EncodeName(children[i].name))]
    requires t.nextInode == s.nextInode + 1 + EntryCount(children[i].children)
    requires no in t.inodes && t.inodes[no].isDir
    requires t.inodes[no].links == LinksAfter(s.inodes[no].links, children[i])
    ensures Entered(g, t, no, parent, first, children, i + 1, links, listed')
  {
    hide EntryBuilt, EncodeName, Keeps, EntryCount, SubdirCount, Geo.GroupsHoldMetadata;
    TreeStable(g, s, t, first, no, children, i);
    NumberStep(first, children, i);
    ListingSnoc(no, parent, first, children, i);
  }

  lemma {:induction false} DirPlacesInPlaces(es: seq<MovedEntry>)
    ensures forall c :: c in DirPlaces(es) ==> c in Places(es)
    decreases es
  {
    if es != [] {
      var init, e := es[..|es| - 1], Last(es);
      DirPlacesInPlaces(init);
      DirPlacesInPlaces(e.children);
      forall c | c in DirPlaces(es) ensures c in Places(es) {
        assert c in DirPlaces(init) || c in DirPlacesEntry(e);
        assert c in DirPlacesEntry(e) ==> c in Clusters(e.place) || c in DirPlaces(e.children);
        assert c in PlacesEntry(e) || c in Places(init);
      }
    }
  }

  lemma DirFinished(g: Geo, blocked: seq<Extent>, s0: State, s: State, t: State, no: nat, own: set<nat>,
                    ahead: seq<nat>,
                    blocks: seq<nat>, items: seq<Listed>, links: nat)
    requires g.Valid() && Closed(g, blocked, s0, s, no, own, ahead, blocks, items) && no in s.inodes
    requires s.inodes[no].isDir && s.inodes[no].links == links % U16
    requires t == s.(inodes := s.inodes[no := s.inodes[no].(size := SetLoHi32(|blocks| * g.blockSize))])
    ensures DirDone(g, blocked, s0, t, no, own, items, links, blocks) && Keeps(s, t)
  {
    hide Geo.GroupsHoldMetadata, Closed, SetLoHi32;
    ClosedIsOpen(g, blocked, s0, s, no, own, ahead, blocks, items);
    ClosedInode(g, blocked, s0, s, no, own, ahead, blocks, items,
                s.inodes[no].(size := SetLoHi32(|blocks| * g.blockSize)));
  }

  /** Inside the loop of build_ext4_metadata_tree: i entries have been built, and the archive
      is read from segment q on. */
  ghost predicate Looping(x: Ext4Volume, read: StreamArchiver, it: ExtentIterator, s0: State, no: nat, parent: nat,
                          own: set<nat>,
                          links: nat, children: seq<MovedEntry>, i: nat, q: nat, cur: DirCursor,
                          blocks: seq<nat>, done: seq<Listed>, items: seq<Listed>)
    reads x, x.vol, x.vol.disk, x.vol.allocator, x.vol.allocator.bitmap, x.groups, x.groups.memory, x.groups.groupDescs
    reads it, it.stream, it.stream.vol, read
  {
    && x.Valid() && x.groups.g.Valid() && it.stream.vol == x.vol && read.vol == x.vol && it.stream != read && it.Valid()
    && i <= |children| && Tidy(children) && links <= 3
    && NotFinal(x.final, it.Rest()) && NotFinal(x.final, DirPlaces(children[i..]))
    && Building(x.groups.g, x.vol.allocator.blocked, s0, x.Now(), no, own, it.Rest() + Places(children[i..]),
                cur, blocks, done, items)
    && Entered(x.groups.g, x.Now(), no, parent, s0.nextInode, children, i, links, done + items)
    && x.vol.log == s0.log && Ahead(s0.log, q, Encode(children[i..])) && CursorAt(s0.log, read.Pos(), q, 0)
    && Keeps(s0, x.Now()) && Fitting(x.groups.g, children, i, cur) && Frugal(s0, x.Now(), 1)
  }

  /** The cursor stands where the names lead, and everything so far has fit. */
  ghost predicate Fitting(g: Geo, children: seq<MovedEntry>, i: nat, cur: DirCursor)
    requires g.Valid()
  {
    && i <= |children| && cur.Reach() == Layout(g.blockSize, DirNames(children, i))
    && forall k :: 0 <= k < i ==> EntryFits(g, children[k])
  }

  lemma FittingStarts(g: Geo, children: seq<MovedEntry>, cur: DirCursor)
    requires g.Valid() && cur.Reach() == Fill(1, 2 * EXT4_DOT_DENTRY_SIZE)
    ensures Fitting(g, children, 0, cur)
  {
    hide Geo.GroupsHoldMetadata, RecLen;
    DotRecords(0, 0);
    LayoutSnoc(g.blockSize, [], DOT_NAME);
    LayoutSnoc(g.blockSize, [DOT_NAME], DOT_DOT_NAME);
    assert [] + [DOT_NAME] == [DOT_NAME] && DirNames(children, 0) == [DOT_NAME] + [DOT_DOT_NAME];
  }

  lemma FittingStep(g: Geo, children: seq<MovedEntry>, i: nat, cur: DirCursor, cur': DirCursor)
    requires g.Valid() && Fitting(g, children, i, cur) && i < |children| && EntryFits(g, children[i])
    requires cur'.Reach() == WithRecord(g.blockSize, cur.Reach(), EncodeName(children[i].name))
    ensures Fitting(g, children, i + 1, cur')
  {
    hide Geo.GroupsHoldMetadata, EntryFits, EncodeName, WithRecord, DirNames;
    DirNamesSnoc(children, i);
    LayoutSnoc(g.blockSize, DirNames(children, i), EncodeName(children[i].name));
  }

  /** Where a block or an entry does not fit, the directory does not. */
  lemma FittingEnds(g: Geo, children: seq<MovedEntry>, i: nat, cur: DirCursor)
    requires g.Valid() && Fitting(g, children, i, cur)
    ensures cur.blockCount <= DirBlockCount(g, children)
    ensures cur.blockCount > MaxEntries(g) ==> !DirFits(g, children, 0)
    ensures i < |children| && !EntryFits(g, children[i]) ==> !DirFits(g, children, 0)
    ensures i == |children| ==> cur.blockCount == DirBlockCount(g, children)
    ensures i == |children| && cur.blockCount <= MaxEntries(g) ==> DirFits(g, children, 0)
  {
    hide Geo.GroupsHoldMetadata, EntryFits, EncodeName, MaxEntries, WithRecord, Layout;
    if i < |children| {
      DirNamesSnoc(children, i);
      LayoutGrows(g.blockSize, DirNames(children, |children|), i + 2);
    }
  }

  method BuildNext(x: Ext4Volume, read: StreamArchiver, it: ExtentIterator, no: nat, cur: DirCursor, ghost s0: State,
                   ghost parent: nat,
                   ghost own: set<nat>, ghost links: nat, ghost children: seq<MovedEntry>, ghost i: nat, ghost q: nat,
                   ghost blocks: seq<nat>, ghost done: seq<Listed>, ghost items: seq<Listed>)
    returns (outcome: Outcome, cur': DirCursor, ghost blocks': seq<nat>, ghost done': seq<Listed>,
             ghost items': seq<Listed>)
    requires Looping(x, read, it, s0, no, parent, own, links, children, i, q, cur, blocks, done, items)
    requires i < |children|
    modifies read, x, x.vol`payload, x.vol.disk, x.vol.allocator, x.vol.allocator.bitmap
    modifies x.groups`books, x.groups.memory, x.groups.groupDescs, it, it.stream
    ensures !outcome.Done? ==> Failed(x, outcome, s0.final)
    ensures Spending(s0, x.Now(), outcome, 1, EntryCount(children))
    ensures outcome.Done? ==>
              && Looping(x, read, it, s0, no, parent, own, links, children, i + 1, q + |EncodeEntry(children[i])|,
                         cur', blocks', done', items')
    ensures outcome.TreeOverflow? ==> !DirFits(x.groups.g, children, 0)
    decreases children[i], 3
  {
    hide Ext4Volume.Valid, CursorAt, Building, Geo.GroupsHoldMetadata, MetaExtents, Encode, EncodeEntry,
         ExtentIterator.Rest, Reading, Ahead,
         Places, DirPlaces, PlacesEntry, DirPlacesEntry, Tidy, Entered, Keeps, EntryBuilt, EntryCount, EncodeName,
         Tiled, Frugal, Spending, NotFinal, Fitting, Failed;
    ghost var s, listed := x.Now(), done + items;
    NextEntry(s0.log, q, children, i);
    FittingEnds(x.groups.g, children, i, cur);
    DirPlacesInPlaces(children[i + 1..]);
    NotFinalParts(x.final, DirPlacesEntry(children[i]), DirPlaces(children[i + 1..]));
    EnteredIsDir(x.groups.g, s, no, parent, s0.nextInode, children, i, links, listed);
    outcome, cur', blocks', done', items' :=
      BuildEntry(x, no, read, it, cur, s0, own, q, children[i], Places(children[i + 1..]),
                 DirPlaces(children[i + 1..]), blocks, done, items);
    EntrySpending(s0, s, x.Now(), outcome, children, i);
    if !outcome.Done? {
      FailedSince(x, outcome, s0, s);
      return;
    }
    EnteredStep(x.groups.g, s, x.Now(), no, parent, s0.nextInode, children, i, links, listed, done' + items');
    FittingStep(x.groups.g, children, i, cur, cur');
    KeepsTransitive(s0, s, x.Now());
  }

  lemma EnteredIsDir(g: Geo, s: State, no: nat, parent: nat, first: nat, children: seq<MovedEntry>, i: nat,
                     links: nat, listed: seq<Listed>)
    requires g.Valid() && Entered(g, s, no, parent, first, children, i, links, listed)
    ensures no in s.inodes && s.inodes[no].isDir && s.nextInode == NumberOf(first, children, i)
  {
  }

  lemma EntrySpending(s0: State, s: State, t: State, outcome: Outcome, children: seq<MovedEntry>, i: nat)
    requires i < |children| && Frugal(s0, s, 1) && s.nextInode == NumberOf(s0.nextInode, children, i)
    requires Spending(s, t, outcome, 0, 1 + EntryCount(children[i].children))
    ensures Spending(s0, t, outcome, 1, EntryCount(children)) && Frugal(s0, t, 1)
  {
    hide EntryCount;
    NumberStep(s0.nextInode, children, i);
    CountGrows(children, i + 1);
    SpendingSince(s0, s, t, outcome, 1, 0, 1 + EntryCount(children[i].children), EntryCount(children));
  }

  lemma {:induction false} CountGrows(es: seq<MovedEntry>, n: nat)
    requires n <= |es|
    ensures EntryCount(es[..n]) <= EntryCount(es)
  {
    if n == |es| {
      assert es[..n] == es;
    } else {
      var init := es[..|es| - 1];
      CountGrows(init, n);
      assert init[..n] == es[..n];
    }
  }

  lemma AllSpending(s0: State, s: State, t: State, outcome: Outcome, children: seq<MovedEntry>)
    requires Frugal(s0, s, 1) && s.nextInode == NumberOf(s0.nextInode, children, |children|)
    requires Spending(s, t, outcome, 1, 0)
    ensures Spending(s0, t, outcome, 2, EntryCount(children))
  {
    hide EntryCount;
    assert children[..|children|] == children;
    SpendingSince(s0, s, t, outcome, 1, 1, 0, EntryCount(children));
  }

  /** The end of build_ext4_metadata_tree. */
  method FinishDir(x: Ext4Volume, read: StreamArchiver, it: ExtentIterator, no: nat, cur: DirCursor, ghost s0: State,
                   ghost parent: nat,
                   ghost own: set<nat>, ghost links: nat, ghost children: seq<MovedEntry>, ghost q: nat,
                   ghost blocks: seq<nat>, ghost done: seq<Listed>, ghost items: seq<Listed>)
    returns (outcome: Outcome)
    requires Looping(x, read, it, s0, no, parent, own, links, children, |children|, q, cur, blocks, done, items)
    modifies x`inodes, x`registered, x`owner, x.vol`payload, x.vol.disk, x.vol.allocator, x.vol.allocator.bitmap
    modifies x.groups`books, x.groups.memory, x.groups.groupDescs
    ensures !outcome.Done? ==> Failed(x, outcome, s0.final)
    ensures Spending(s0, x.Now(), outcome, 2, EntryCount(children))
    ensures outcome.Done? ==>
              && x.Valid()
              && DirDone(x.groups.g, x.vol.allocator.blocked, s0, x.Now(), no, own,
                         ListingOf(no, parent, s0.nextInode, children, |children|), links + SubdirCount(children),
                         blocks + [cur.cluster])
              && TreeBuilt(x.groups.g, x.Now(), s0.nextInode, no, children, |children|)
              && x.firstFreeInodeNo == s0.nextInode + EntryCount(children) && x.vol.log == s0.log
              && |blocks| + 1 == DirBlockCount(x.groups.g, children) && DirFits(x.groups.g, children, 0)
    ensures outcome.TreeOverflow? ==> !DirFits(x.groups.g, children, 0)
  {
    hide Ext4Volume.Valid, CursorAt, Building, Closed, Geo.GroupsHoldMetadata, MetaExtents, Encode,
         ExtentIterator.Rest, Reading,
         Places, DirPlaces, Tidy, Entered, Keeps, EntryBuilt, TreeBuilt, DirDone, EntryCount, SubdirCount, ListingOf,
         Ahead, SetLoHi32, OnlyGains, Fitting, MaxEntries, DirFits, DirBlockCount, Frugal, Spending, NotFinal, Failed;
    ghost var g, blocked, s := x.groups.g, x.vol.allocator.blocked, x.Now();
    ghost var ahead := it.Rest() + Places(children[|children|..]);
    BuildingCurrent(g, blocked, s0, s, no, own, ahead, cur, blocks, done, items);
    FittingEnds(g, children, |children|, cur);
    outcome := FinishBlock(x, no, cur, s0, own, ahead, blocks, done, items);
    ghost var t := x.Now();
    EnteredIsDir(g, s, no, parent, s0.nextInode, children, |children|, links, done + items);
    AllSpending(s0, s, t, outcome, children);
    if !outcome.Done? {
      FailedSince(x, outcome, s0, s);
      return;
    }
    EnteredAll(g, s, t, no, parent, s0.nextInode, children, links, done + items);
    ClosedIsOpen(g, blocked, s0, t, no, own, ahead, blocks + [cur.cluster], done + items);
    x.UpdateInode(no, x.inodes[no].(size := SetLoHi32(cur.blockCount * x.groups.g.blockSize)));
    DirFinished(g, blocked, s0, t, x.Now(), no, own, ahead, blocks + [cur.cluster], done + items,
                links + SubdirCount(children));
    SpendingSame(s0, s0, t, x.Now(), outcome, 2, EntryCount(children));
    TreeStable(g, t, x.Now(), s0.nextInode, no, children, |children|);
  }

  /** build_ext4_metadata_tree */
  method BuildDir(x: Ext4Volume, no: nat, parent: nat, read: StreamArchiver, ghost p: nat, ghost place: seq<Extent>,
                  ghost children: seq<MovedEntry>, ghost links: nat)
    returns (outcome: Outcome, ghost blocks: seq<nat>)
    requires x.Valid() && x.groups.g.Valid() && x.Open(no) && read.vol == x.vol && x.inodes[no] == NewInode(true, links)
    requires Tidy(children) && links <= 3
    requires Ahead(x.vol.log, p, [ExtentItems(place)] + EncodeDir(children)) && CursorAt(x.vol.log, read.Pos(), p, 0)
    requires Waiting(x.vol.allocator.blocked, x.Now(), Clusters(place) + Places(children))
    requires NotFinal(x.final, Clusters(place) + DirPlaces(children))
    requires Owned(x.Now(), no) == {}
    modifies read, x, x.vol`payload, x.vol.disk, x.vol.allocator, x.vol.allocator.bitmap
    modifies x.groups`books, x.groups.memory, x.groups.groupDescs
    ensures !outcome.Done? ==> Failed(x, outcome, old(x.final))
    ensures Spending(old(x.Now()), x.Now(), outcome, 2, EntryCount(children))
    ensures outcome.Done? ==>
              && x.Valid()
              && DirDone(x.groups.g, x.vol.allocator.blocked, old(x.Now()), x.Now(), no,
                         SetOf(Clusters(place) + Places(children)),
                         ListingOf(no, parent, old(x.firstFreeInodeNo), children, |children|),
                         links + SubdirCount(children), blocks)
              && TreeBuilt(x.groups.g, x.Now(), old(x.firstFreeInodeNo), no, children, |children|)
              && x.firstFreeInodeNo == old(x.firstFreeInodeNo) + EntryCount(children)
              && CursorAt(x.vol.log, read.Pos(), p + 1 + |EncodeDir(children)|, 0)
              && |blocks| == DirBlockCount(x.groups.g, children) > 0 && DirFits(x.groups.g, children, 0)
    ensures outcome.TreeOverflow? ==> !DirFits(x.groups.g, children, 0)
    decreases children
  {
    hide Ext4Volume.Valid, CursorAt, Building, Geo.GroupsHoldMetadata, MetaExtents, Encode, EncodeEntry,
         ExtentIterator.Rest, Reading, Ahead,
         Waiting, Clusters, Places, DirPlaces, Dots, Tidy, Entered, Keeps, EntryBuilt, TreeBuilt, DirDone, EntryCount,
         SubdirCount, ListingOf, Fitting, DirFits, DirBlockCount, Balanced, NewInode, NotFinal, Frugal, Spending;
    ghost var s0, own := x.Now(), SetOf(Clusters(place) + Places(children));
    NotFinalParts(x.final, Clusters(place), DirPlaces(children));
    var ok, it, cur, childCount := StartDir(x, no, parent, read, p, place, children, links);
    blocks := [];
    if !ok {
      FrugalEnds(s0, x.Now(), Outcome.DiskFull, 1, 2, EntryCount(children));
      return Outcome.DiskFull, [];
    }
    ghost var done: seq<Listed>, items: seq<Listed>, q: nat := [], Dots(no, parent), p + 2;
    EnteredStarts(x.groups.g, x.Now(), no, parent, s0.nextInode, children, links);
    KeepsReflexive(s0, x.Now());
    FittingStarts(x.groups.g, children, cur);
    assert children[0..] == children;
    var i: nat := 0;
    while i < childCount
      invariant i <= |children|
      invariant Looping(x, read, it, s0, no, parent, own, links, children, i, q, cur, blocks, done, items)
      invariant q + |Encode(children[i..])| == p + 2 + |Encode(children)|
    {
      NextEntry(s0.log, q, children, i);
      outcome, cur, blocks, done,
      items := BuildNext(x, read, it, no, cur, s0, parent, own, links, children, i, q, blocks, done, items);
      SpendingMore(s0, x.Now(), outcome, 1, 2, EntryCount(children));
      if !outcome.Done? { return; }
      i, q := i + 1, q + |EncodeEntry(children[i])|;
    }
    NothingLeft();
    assert children[|children|..] == [];
    outcome := FinishDir(x, read, it, no, cur, s0, parent, own, links, children, q, blocks, done, items);
    blocks := blocks + [cur.cluster];
  }

  lemma NothingLeft()
    ensures Places([]) == [] && Encode([]) == [] && DirPlaces([]) == []
  {
  }

  lemma EnteredAll(g: Geo, s: State, t: State, no: nat, parent: nat, first: nat, children: seq<MovedEntry>,
                   links: nat, listed: seq<Listed>)
    requires g.Valid() && Entered(g, s, no, parent, first, children, |children|, links, listed) && no in t.inodes
    requires t.final == s.final && t.sealed == s.sealed && s.registered <= t.registered && t.nextInode == s.nextInode
    requires t.inodes[no].isDir == s.inodes[no].isDir && t.inodes[no].links == s.inodes[no].links
    requires OnlyGains(s, t, no) && no !in s.sealed
    ensures TreeBuilt(g, t, first, no, children, |children|) && t.nextInode == first + EntryCount(children)
    ensures t.inodes[no].isDir && t.inodes[no].links == (links + SubdirCount(children)) % U16
    ensures listed == ListingOf(no, parent, first, children, |children|)
  {
    hide EntryBuilt, EntryCount, SubdirCount, ListingOf, Geo.GroupsHoldMetadata;
    assert children[..|children|] == children;
    TreeStable(g, s, t, first, no, children, |children|);
  }

  lemma FailedSince(x: Ext4Volume, outcome: Outcome, s0: State, s: State)
    requires Keeps(s0, s) && Failed(x, outcome, s.final)
    ensures Failed(x, outcome, s0.final)
  {
    hide Ext4Volume.Valid;
  }

  lemma {:induction false} EncodeAppend(a: seq<MovedEntry>, b: seq<MovedEntry>)
    ensures Encode(a + b) == Encode(a) + Encode(b)
    decreases |b|
  {
    hide EncodeEntry;
    if b == [] {
      assert a + b == a;
    } else {
      var init := b[..|b| - 1];
      EncodeAppend(a, init);
      assert (a + b)[..|a + b| - 1] == a + init;
    }
  }

  /** What the loop needs to know about its next entry. */
  lemma NextEntry(log: Log, q: nat, children: seq<MovedEntry>, i: nat)
    requires i < |children| && Tidy(children) && Ahead(log, q, Encode(children[i..]))
    ensures Encode(children[i..]) == EncodeEntry(children[i]) + Encode(children[i + 1..])
    ensures Ahead(log, q, EncodeEntry(children[i]))
    ensures Ahead(log, q + |EncodeEntry(children[i])|, Encode(children[i + 1..]))
    ensures Places(children[i..]) == PlacesEntry(children[i]) + Places(children[i + 1..])
    ensures DirPlaces(children[i..]) == DirPlacesEntry(children[i]) + DirPlaces(children[i + 1..])
    ensures var e := children[i]; Tiled(e.place, 0) && (!IsDir(e.record) ==> e.children == []) && Tidy(e.children)
  {
    hide EncodeEntry, PlacesEntry, DirPlacesEntry, Ahead;
    PlacesFrom(children, i);
    assert children[i..] == [children[i]] + children[i + 1..];
    EncodeAppend([children[i]], children[i + 1..]);
    assert [children[i]][..0] == [];
    assert Encode([children[i]]) == EncodeEntry(children[i]);
    assert Encode(children[i..]) == EncodeEntry(children[i]) + Encode(children[i + 1..]);
    AheadSplit(log, q, EncodeEntry(children[i]), Encode(children[i + 1..]));
  }

  lemma NotFinalParts(final: map<nat, Cluster>, a: seq<nat>, b: seq<nat>)
    requires NotFinal(final, a + b)
    ensures NotFinal(final, a) && NotFinal(final, b)
  {
    forall c | c in a || c in b ensures c !in final {
      assert c in a + b;
    }
  }

  lemma EnteredStarts(g: Geo, s: State, no: nat, parent: nat, first: nat, children: seq<MovedEntry>, links: nat)
    requires g.Valid() && no in s.inodes && s.inodes[no] == NewInode(true, links) && links < U16 && s.nextInode == first
    ensures Entered(g, s, no, parent, first, children, 0, links, [] + Dots(no, parent))
  {
    hide Geo.GroupsHoldMetadata;
    assert children[..0] == [];
  }

  // --- lost+found ----------------------------------------------------------------------

  const LOST_FOUND_NAME: seq<Byte> := [0x6C, 0x6F, 0x73, 0x74, 0x2B, 0x66, 0x6F, 0x75, 0x6E, 0x64]

  function Ascii(text: string): (bytes: seq<Byte>)
    requires forall i :: 0 <= i < |text| ==> text[i] as int < 0x80
    ensures |bytes| == |text|
  {
    seq(|text|, i requires 0 <= i < |text| => text[i] as int as Byte)
  }

  /** The names that are not taken from the FAT volume. */
  lemma SpecialNames()
    ensures DOT_NAME == Ascii(".") && DOT_DOT_NAME == Ascii("..") && LOST_FOUND_NAME == Ascii("lost+found")
  {
  }

  ghost function LostFoundEntry(): Listed { Listed(EXT4_LOST_FOUND_INODE, LOST_FOUND_NAME) }

  /** A block that one record fills. */
  lemma OneRecordFinished(entries: map<nat, DirRecord>, blockSize: nat, item: Listed)
    requires RecLen(item.name) <= blockSize
    ensures Finished(entries[0 := DirRecord(item.inode, blockSize, item.name)], blockSize, [item])
  {
    assert [item][..0] == [];
  }

  /** Whether a cluster that is being registered is written before or after makes no difference. */
  lemma BetweenWritten(s: State, t: State, own: set<nat>, mine: set<nat>, c: nat, content: Cluster)
    requires Between(s, t, own, mine) && c in own && c in s.payload
    ensures Between(s.(payload := s.payload[c := content]), t.(payload := t.payload[c := content]), own, mine)
  {
    hide Consumed;
  }

  lemma DescribesWritten(g: Geo, s: State, inode: Inode, exts: seq<Ext4Extent>, c: nat, content: Cluster)
    requires EXTENT_HEADER_SIZE <= g.blockSize && Describes(g, s, inode, exts) && c !in NodeClusters(g, inode.root)
    ensures Describes(g, s.(payload := s.payload[c := content]), inode, exts)
  {
    hide LeafHolds, CountsBlocks;
  }

  /** The block of a directory, registered first and written afterwards. */
  lemma RegisteredThenWritten(g: Geo, blocked: seq<Extent>, s0: State, s: State, t: State, no: nat, own: set<nat>,
                              c: nat,
                              blocks: seq<nat>, done: seq<Listed>, item: Listed, content: Cluster)
    requires g.Valid() && Closed(g, blocked, s0, s, no, own, [c], blocks, done) && c !in s.final
    requires Finished(EntriesOf(content), g.blockSize, [item])
    requires no in t.inodes && t.final == s.final && t.sealed == s.sealed && FAT_START_INDEX <= c
    requires Describes(g, t, t.inodes[no], UnitExts(g, blocks) + [ToExt4Extent(g, Extent(|blocks|, 1, c))])
    requires Between(s, t, NodeClusters(g, s.inodes[no].root) + Span(c, 1), {no}) && Span(c, 1) <= t.registered
    requires forall k :: k in NodeClusters(g, t.inodes[no].root) ==>
               k in NodeClusters(g, s.inodes[no].root) || k !in s.payload
    requires GainsOwned(g, s, t, no, Span(c, 1))
    ensures Closed(g, blocked, s0, t.(payload := t.payload[c := content]), no, own, [], blocks + [c], done + [item])
  {
    hide Geo.GroupsHoldMetadata, TreeHolds, ReadDir, NodeClusters, Finished, Span, Distinct, EntriesOf, CountsBlocks,
         Between;
    SpanGrows(c, 0);
    assert [c] + [] == [c] && c in [c];
    WaitingWritten(g, blocked, s0, s, no, own, c, [], blocks, done, content);
    DescribedNodes(g, s, s.inodes[no], UnitExts(g, blocks));
    var own2 := NodeClusters(g, s.inodes[no].root) + Span(c, 1);
    BetweenWritten(s, t, own2, {no}, c, content);
    DescribesWritten(g, t, t.inodes[no], UnitExts(g, blocks) + [ToExt4Extent(g, Extent(|blocks|, 1, c))], c, content);
    BlockRegistered(g, blocked, s0, s.(payload := s.payload[c := content]), t.(payload := t.payload[c := content]),
                    no, own, c, [],
                    blocks, done, [item]);
  }

  /** build_lost_found, first part: a block of its own for the entry in the root directory. */
  method AddRootBlock(x: Ext4Volume, ghost s0: State, ghost own: set<nat>, ghost items: seq<Listed>,
                      ghost blocks: seq<nat>)
    returns (outcome: Outcome, ghost block: nat)
    requires x.Valid() && x.groups.g.Valid() && blocks != []
    requires Closed(x.groups.g, x.vol.allocator.blocked, s0, x.Now(), EXT4_ROOT_INODE, own, [], blocks, items)
    modifies x`inodes, x`registered, x`owner, x.vol`payload, x.vol.disk, x.vol.allocator, x.vol.allocator.bitmap
    modifies x.groups`books, x.groups.memory, x.groups.groupDescs
    ensures !outcome.Done? ==> Failed(x, outcome, old(x.final))
    ensures Spending(old(x.Now()), x.Now(), outcome, 2, 0)
    ensures outcome.Done? ==>
              && x.Valid() && old(x.registered) <= x.registered && EXT4_ROOT_INODE in old(x.inodes)
              && Closed(x.groups.g, x.vol.allocator.blocked, s0, x.Now(), EXT4_ROOT_INODE, own, [], blocks + [block],
                        items + [LostFoundEntry()])
              && EXT4_ROOT_INODE in x.inodes
              && x.inodes == old(x.inodes)[EXT4_ROOT_INODE := old(x.inodes[EXT4_ROOT_INODE]).(
                   root := x.inodes[EXT4_ROOT_INODE].root, blocks := x.inodes[EXT4_ROOT_INODE].blocks)]
              && |blocks| + 1 <= MaxEntries(x.groups.g) && OnlyGains(old(x.Now()), x.Now(), EXT4_ROOT_INODE)
    ensures outcome.TreeOverflow? ==> |blocks| + 1 > MaxEntries(x.groups.g)
  {
    hide Ext4Volume.Valid, Closed, Between, Describes, Waiting, Geo.GroupsHoldMetadata, NodeClusters, Placeable, Span,
         MetaExtents, MaxEntries, Finished, UnitExts, ToExt4Extent, Claimed, SetLoHi48, Balanced, RecLen;
    x.ValidShape();
    x.ValidIsBalanced();
    ghost var g, blocked, s, books := x.groups.g, x.vol.allocator.blocked, x.Now(), x.groups.books;
    block := 0;
    ClosedIsOpen(g, blocked, s0, s, EXT4_ROOT_INODE, own, [], blocks, items);
    var c := x.AllocateCluster();
    if c.None? {
      outcome := Outcome.DiskFull;
      return;
    }
    block := c.value;
    ghost var s1 := x.Now();
    assert [block] + [] == [block];
    BlockClaimed(g, blocked, books, s0, s, s1, EXT4_ROOT_INODE, own, block, [], blocks, items);
    ClosedReady(g, blocked, s0, s1, EXT4_ROOT_INODE, own, block, [], blocks, items);
    var last := x.LastExtent(EXT4_ROOT_INODE, UnitExts(g, blocks));
    LastUnit(g, blocks);
    outcome := x.RegisterExtent(Extent(last.block + last.len, 1, c.value), EXT4_ROOT_INODE, UnitExts(g, blocks));
    if !outcome.Done? {
      if !outcome.DiskFull? { x.FinalIsOnDisk(); }
      return;
    }
    ghost var t := x.Now();
    RegisteredInPayload(s1, t, NodeClusters(g, s1.inodes[EXT4_ROOT_INODE].root) + Span(block, 1), {EXT4_ROOT_INODE},
                        block);
    var rec := DirRecord(EXT4_LOST_FOUND_INODE, x.groups.g.blockSize, LOST_FOUND_NAME);
    LostFoundFits(g);
    OneRecordFinished(EntriesOf(t.payload[block]), g.blockSize, LostFoundEntry());
    RegisteredThenWritten(g, blocked, s0, s1, t, EXT4_ROOT_INODE, own, block, blocks, items, LostFoundEntry(),
                          DirBlock(EntriesOf(t.payload[block])[0 := rec]));
    WriteRecord(x, c.value, 0, rec);
    BetweenKeeps(s1, t, NodeClusters(g, s1.inodes[EXT4_ROOT_INODE].root) + Span(block, 1), {EXT4_ROOT_INODE});
  }

  /** The same with the size of the root directory. */
  method AddLostFound(x: Ext4Volume, ghost s0: State, ghost own: set<nat>, ghost items: seq<Listed>, ghost links: nat,
                      ghost blocks: seq<nat>)
    returns (outcome: Outcome, ghost block: nat)
    requires x.Valid() && x.groups.g.Valid() && blocks != []
    requires DirDone(x.groups.g, x.vol.allocator.blocked, s0, x.Now(), EXT4_ROOT_INODE, own, items, links, blocks)
    modifies x`inodes, x`registered, x`owner, x.vol`payload, x.vol.disk, x.vol.allocator, x.vol.allocator.bitmap
    modifies x.groups`books, x.groups.memory, x.groups.groupDescs
    ensures !outcome.Done? ==> Failed(x, outcome, old(x.final))
    ensures Spending(old(x.Now()), x.Now(), outcome, 2, 0)
    ensures outcome.Done? ==>
              && x.Valid() && old(x.registered) <= x.registered && x.inodes.Keys == old(x.inodes.Keys)
              && DirDone(x.groups.g, x.vol.allocator.blocked, s0, x.Now(), EXT4_ROOT_INODE, own,
                         items + [LostFoundEntry()], links,
                         blocks + [block])
              && |blocks| + 1 <= MaxEntries(x.groups.g) && OnlyGains(old(x.Now()), x.Now(), EXT4_ROOT_INODE)
              && EXT4_ROOT_INODE !in old(x.sealed)
    ensures outcome.TreeOverflow? ==> |blocks| + 1 > MaxEntries(x.groups.g)
  {
    hide Ext4Volume.Valid, Closed, Geo.GroupsHoldMetadata, MetaExtents, MaxEntries, SetLoHi32, FromLoHi32, Failed;
    x.ValidShape();
    ghost var g, blocked := x.groups.g, x.vol.allocator.blocked;
    DirDoneIsClosed(g, blocked, s0, x.Now(), EXT4_ROOT_INODE, own, items, links, blocks);
    outcome, block := AddRootBlock(x, s0, own, items, blocks);
    if !outcome.Done? { return; }
    ghost var u := x.Now();
    RootSize(g, blocked, s0, u, own, blocks + [block], items + [LostFoundEntry()]);
    var root := x.inodes[EXT4_ROOT_INODE];
    x.UpdateInode(EXT4_ROOT_INODE, root.(size := SetLoHi32(FromLoHi32(root.size) + x.groups.g.blockSize)));
    assert |blocks + [block]| * g.blockSize == |blocks| * g.blockSize + g.blockSize;
    DirFinished(g, blocked, s0, u, x.Now(), EXT4_ROOT_INODE, own, [], blocks + [block], items + [LostFoundEntry()],
                links);
  }

  lemma DirDoneIsClosed(g: Geo, blocked: seq<Extent>, s0: State, s: State, no: nat, own: set<nat>, items: seq<Listed>,
                        links: nat, blocks: seq<nat>)
    requires g.Valid() && DirDone(g, blocked, s0, s, no, own, items, links, blocks)
    ensures Closed(g, blocked, s0, s, no, own, [], blocks, items) && no in s.inodes && no !in s.sealed
  {
  }

  lemma LastUnit(g: Geo, blocks: seq<nat>)
    requires InDataArea(blocks) && blocks != []
    ensures UnitExts(g, blocks) != []
    ensures Last(UnitExts(g, blocks)).block + Last(UnitExts(g, blocks)).len == |blocks|
  {
  }

  lemma RegisteredInPayload(s: State, t: State, own: set<nat>, mine: set<nat>, c: nat)
    requires Between(s, t, own, mine) && c in s.payload
    ensures c in t.payload
  {
  }

  lemma LostFoundFits(g: Geo)
    requires g.Valid()
    ensures RecLen(LOST_FOUND_NAME) <= g.blockSize
  {
    hide Geo.GroupsHoldMetadata;
  }

  /** The size of the root directory is read back as it was stored. */
  lemma RootSize(g: Geo, blocked: seq<Extent>, s0: State, s: State, own: set<nat>, blocks: seq<nat>, items: seq<Listed>)
    requires g.Valid() && g.blockSize <= 32768 && Closed(g, blocked, s0, s, EXT4_ROOT_INODE, own, [], blocks, items)
    ensures EXT4_ROOT_INODE in s.inodes && EXT4_ROOT_INODE !in s.sealed
    ensures forall n: nat :: n <= |blocks| ==> FromLoHi32(SetLoHi32(n * g.blockSize)) == n * g.blockSize
  {
    hide Geo.GroupsHoldMetadata, ReadDir, Waiting, Between, CountsBlocks, FromLoHi32, SetLoHi32;
    assert |blocks| <= 2730;
    forall n: nat | n <= |blocks| ensures FromLoHi32(SetLoHi32(n * g.blockSize)) == n * g.blockSize {
      SizeFits(n, g.blockSize);
      LoHi32RoundTrip(n * g.blockSize);
    }
  }

  lemma SizeFits(n: nat, blockSize: nat)
    requires n <= 2730 && blockSize <= 32768
    ensures n * blockSize < U32 * U32
  {
    MulMonotone(n, blockSize, 32768);
  }

  /** A directory that is done is sealed. */
  ghost method SealDirectory(x: Ext4Volume, no: nat, s0: State, own: set<nat>, items: seq<Listed>, links: nat,
                             blocks: seq<nat>)
    requires x.Valid() && x.groups.g.Valid()
    requires DirDone(x.groups.g, x.vol.allocator.blocked, s0, x.Now(), no, own, items, links, blocks)
    modifies x`final, x`sealed
    ensures x.Valid() && no in x.sealed && Keeps(old(x.Now()), x.Now())
    ensures IsDirectory(x.groups.g, x.final, Owned(x.Now(), no), x.sealed[no], items, links)
  {
    hide Ext4Volume.Valid, Between, Geo.GroupsHoldMetadata, NodeClusters, MetaExtents, DirDone, IsDirectory, Keeps;
    var s := x.Now();
    DirDoneClusters(x.groups.g, x.vol.allocator.blocked, s0, s, no, own, items, links, blocks);
    x.FinalIsOnDisk();
    x.Seal(no, SetOf(blocks) + NodeClusters(x.groups.g, x.inodes[no].root));
    x.FinalIsOnDisk();
    DirectorySealed(x.groups.g, x.vol.allocator.blocked, s0, s, x.Now(), no, own, items, links, blocks);
  }

  lemma RoomForOne(g: Geo)
    requires g.Valid()
    ensures 1 <= MaxEntries(g)
  {
    hide Geo.GroupsHoldMetadata;
  }

  /** The only block of lost+found. */
  method FillLostFound(x: Ext4Volume, ghost s0: State) returns (outcome: Outcome, ghost block: nat)
    requires x.Valid() && x.groups.g.Valid() && s0 == x.Now()
    requires Closed(x.groups.g, x.vol.allocator.blocked, s0, s0, EXT4_LOST_FOUND_INODE, SetOf([]), [], [], [])
    modifies x`inodes, x`registered, x`owner, x.vol`payload, x.vol.disk, x.vol.allocator, x.vol.allocator.bitmap
    modifies x.groups`books, x.groups.memory, x.groups.groupDescs
    ensures !outcome.Done? ==> Failed(x, outcome, old(x.final)) && !outcome.TreeOverflow?
    ensures Spending(s0, x.Now(), outcome, 2, 0)
    ensures outcome.Done? ==>
              && x.Valid() && EXT4_LOST_FOUND_INODE in s0.inodes && s0.registered <= x.registered
              && Closed(x.groups.g, x.vol.allocator.blocked, s0, x.Now(), EXT4_LOST_FOUND_INODE, SetOf([]), [], [block],
                        Dots(EXT4_LOST_FOUND_INODE, EXT4_ROOT_INODE))
              && EXT4_LOST_FOUND_INODE in x.inodes && OnlyGains(s0, x.Now(), EXT4_LOST_FOUND_INODE)
              && var no, inode := EXT4_LOST_FOUND_INODE, x.inodes[EXT4_LOST_FOUND_INODE];
                 x.inodes == s0.inodes[no := s0.inodes[no].(root := inode.root, blocks := inode.blocks)]
  {
    hide Ext4Volume.Valid, Closed, Building, Between, Geo.GroupsHoldMetadata, MetaExtents, Claimed, Balanced, Dots,
         Owned, MaxEntries, ExtentAllocator.Remaining, Grown, Frugal, Spending;
    ghost var g, blocked, no, books := x.groups.g, x.vol.allocator.blocked, EXT4_LOST_FOUND_INODE, x.groups.books;
    block := 0;
    x.ValidIsBalanced();
    var c := x.AllocateCluster();
    ghost var s1 := x.Now();
    if c.None? {
      FrugalEnds(s0, s1, Outcome.DiskFull, 1, 2, 0);
      return Outcome.DiskFull, 0;
    }
    RoomForOne(g);
    assert [c.value] + [] == [c.value];
    BlockClaimed(g, blocked, books, s0, s0, s1, no, SetOf([]), c.value, [], [], []);
    var cur := BuildDotDirs(x, EXT4_LOST_FOUND_INODE, EXT4_ROOT_INODE, c.value, s0, SetOf([]), []);
    block := c.value;
    ghost var s2 := x.Now();
    outcome := FinishBlock(x, EXT4_LOST_FOUND_INODE, cur, s0, SetOf([]), [], [], [], Dots(no, EXT4_ROOT_INODE));
    SpendingSame(s1, s2, x.Now(), x.Now(), outcome, 1, 0);
    SpendingSince(s0, s1, x.Now(), outcome, 1, 1, 0, 0);
    assert [] + Dots(no, EXT4_ROOT_INODE) == Dots(no, EXT4_ROOT_INODE) && [] + [block] == [block];
    if outcome.Done? {
      ClosedIsOpen(g, blocked, s0, x.Now(), no, SetOf([]), [], [block], Dots(no, EXT4_ROOT_INODE));
    }
  }

  /** build_lost_found, second part: its inode, and its only block. */
  method BuildLostFoundDir(x: Ext4Volume) returns (outcome: Outcome)
    requires x.Valid() && x.groups.g.Valid() && EXT4_LOST_FOUND_INODE !in x.inodes
    requires x.firstFreeInodeNo > EXT4_LOST_FOUND_INODE
    modifies x`inodes, x`registered, x`owner, x`final, x`sealed, x.vol`payload, x.vol.disk, x.vol.allocator
    modifies x.vol.allocator.bitmap
    modifies x.groups`books, x.groups.memory, x.groups.groupDescs
    ensures !outcome.Done? ==> Failed(x, outcome, old(x.final)) && !outcome.TreeOverflow?
    ensures Spending(old(x.Now()), x.Now(), outcome, 2, 0)
    ensures outcome.Done? ==>
              && x.Valid() && Keeps(old(x.Now()), x.Now()) && EXT4_LOST_FOUND_INODE in x.sealed
              && x.inodes.Keys == old(x.inodes.Keys) + {EXT4_LOST_FOUND_INODE}
              && IsDirectory(x.groups.g, x.final, Owned(x.Now(), EXT4_LOST_FOUND_INODE),
                             x.sealed[EXT4_LOST_FOUND_INODE],
                             Dots(EXT4_LOST_FOUND_INODE, EXT4_ROOT_INODE), 2)
  {
    hide Ext4Volume.Valid, Closed, Building, Between, Geo.GroupsHoldMetadata, MetaExtents, SetLoHi32, Balanced, Dots,
         DirDone, IsDirectory, Keeps, Owned, ExtentAllocator.Remaining, Grown, Frugal, Spending;
    ghost var g, blocked, no := x.groups.g, x.vol.allocator.blocked, EXT4_LOST_FOUND_INODE;
    ghost var before, block := x.Now(), 0;
    x.ValidIsBalanced();
    NothingOwned(g, x.groups.books, before, no);
    x.AddReservedInode(EXT4_LOST_FOUND_INODE, NewInode(true, 2));
    ghost var s0 := x.Now();
    OwnedSame(before, s0, no);
    ClosedStarts(g, blocked, s0, no, [], 2);
    outcome, block := FillLostFound(x, s0);
    ghost var t := x.Now();
    SpendingSame(before, s0, t, t, outcome, 2, 0);
    if !outcome.Done? { return; }
    ClosedIsOpen(g, blocked, s0, t, no, SetOf([]), [], [block], Dots(no, EXT4_ROOT_INODE));
    x.UpdateInode(EXT4_LOST_FOUND_INODE, x.inodes[EXT4_LOST_FOUND_INODE].(size := SetLoHi32(x.groups.g.blockSize)));
    assert |[block]| * g.blockSize == g.blockSize;
    DirFinished(g, blocked, s0, t, x.Now(), no, SetOf([]), [], [block], Dots(no, EXT4_ROOT_INODE), 2);
    ghost var u := x.Now();
    KeepsReflexive(before, s0);
    KeepsLarger(before, s0, u, no);
    SealDirectory(x, no, s0, SetOf([]), Dots(no, EXT4_ROOT_INODE), 2, [block]);
    SpendingSame(before, before, t, x.Now(), outcome, 2, 0);
    KeepsTransitive(before, u, x.Now());
  }

  lemma KeepsLarger(a: State, b: State, c: State, no: nat)
    requires Keeps(a, b) && c.final == b.final && c.sealed == b.sealed && b.registered <= c.registered
    requires OnlyGains(b, c, no) && no !in a.sealed
    ensures Keeps(a, c)
  {
  }

  lemma SealedStays(g: Geo, s: State, t: State, no: nat, items: seq<Listed>, links: nat)
    requires g.Valid() && no in s.sealed && IsDirectory(g, s.final, Owned(s, no), s.sealed[no], items, links)
    requires Keeps(s, t)
    ensures no in t.sealed && IsDirectory(g, t.final, Owned(t, no), t.sealed[no], items, links)
  {
    hide Geo.GroupsHoldMetadata, DirectoryIn;
    OwnedStable(s, t, no);
    var blocks :| DirectoryIn(g, s.final, Owned(s, no), s.sealed[no], items, links, blocks);
    DirectoryStable(g, s.final, t.final, Owned(s, no), s.sealed[no], items, links, blocks);
  }

  /** build_lost_found. Its inode is entered after the record in the root directory here. */
  method BuildLostFound(x: Ext4Volume, ghost s0: State, ghost own: set<nat>, ghost items: seq<Listed>,
                        ghost links: nat, ghost blocks: seq<nat>)
    returns (outcome: Outcome)
    requires x.Valid() && x.groups.g.Valid() && blocks != []
    requires DirDone(x.groups.g, x.vol.allocator.blocked, s0, x.Now(), EXT4_ROOT_INODE, own, items, links, blocks)
    requires EXT4_LOST_FOUND_INODE !in x.inodes && x.firstFreeInodeNo > EXT4_LOST_FOUND_INODE
    modifies x`inodes, x`registered, x`owner, x`final, x`sealed, x.vol`payload, x.vol.disk, x.vol.allocator
    modifies x.vol.allocator.bitmap
    modifies x.groups`books, x.groups.memory, x.groups.groupDescs
    ensures !outcome.Done? ==> Failed(x, outcome, old(x.final))
    ensures Spending(old(x.Now()), x.Now(), outcome, 4, 0)
    ensures outcome.Done? ==>
              && x.Valid() && Keeps(old(x.Now()), x.Now()) && EXT4_ROOT_INODE in x.sealed
              && EXT4_LOST_FOUND_INODE in x.sealed
              && x.inodes.Keys == old(x.inodes.Keys) + {EXT4_LOST_FOUND_INODE}
              && IsDirectory(x.groups.g, x.final, Owned(x.Now(), EXT4_ROOT_INODE), x.sealed[EXT4_ROOT_INODE],
                             items + [LostFoundEntry()],
                             links)
              && IsDirectory(x.groups.g, x.final, Owned(x.Now(), EXT4_LOST_FOUND_INODE),
                             x.sealed[EXT4_LOST_FOUND_INODE],
                             Dots(EXT4_LOST_FOUND_INODE, EXT4_ROOT_INODE), 2)
    ensures outcome.Done? ==> |blocks| + 1 <= MaxEntries(x.groups.g)
    ensures outcome.TreeOverflow? ==> |blocks| + 1 > MaxEntries(x.groups.g)
  {
    hide Ext4Volume.Valid, Geo.GroupsHoldMetadata, MetaExtents, Dots, DirDone, IsDirectory, Keeps, MaxEntries;
    ghost var before, block := x.Now(), 0;
    outcome, block := AddLostFound(x, s0, own, items, links, blocks);
    if !outcome.Done? { return; }
    ghost var s := x.Now();
    KeepsReflexive(before, before);
    KeepsLarger(before, before, s, EXT4_ROOT_INODE);
    SealDirectory(x, EXT4_ROOT_INODE, s0, own, items + [LostFoundEntry()], links, blocks + [block]);
    KeepsTransitive(before, s, x.Now());
    ghost var t := x.Now();
    outcome := BuildLostFoundDir(x);
    if !outcome.Done? {
      FailedSince(x, outcome, before, t);
      return;
    }
    KeepsTransitive(before, t, x.Now());
    SealedStays(x.groups.g, t, x.Now(), EXT4_ROOT_INODE, items + [LostFoundEntry()], links);
  }
}
