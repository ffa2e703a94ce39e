/** Phase one: the directory tree is written to the archive while its contents move
    (metadata_reader.cpp). */
module Traverse {
  import opened Fat
  import opened Allocator
  import opened Disk
  import opened Archive
  import opened Archiver
  import opened Extents
  import opened Aggregator
  import opened Dentry
  import opened Tree
  import opened ExtentIterator
  import opened DirReader
  import opened StreamWriter

  /** A reader at this place has these live records ahead of it, and its segment lies within
      what has been written. */
  ghost predicate ServedAt(dpc: nat, p: ReaderPlace, m: Moment, base: seq<seq<Item>>, ahead: seq<Record>) {
    && p.s < |base| && base[p.s] == ExtentItems(p.es)
    && ReaderOk(m.log, m.payload, dpc, p) && Live(PendingRecords(m.payload, p)) == ahead
  }

  ghost predicate Serves(state: ClusterReadState, w: StreamArchiver, base: seq<seq<Item>>, ahead: seq<Record>)
    reads state, state.extents, state.extents.stream, w, w.vol, w.vol.allocator
  {
    && state.extents.stream.vol == w.vol && state.extents.stream != w
    && ServedAt(state.dentriesPerCluster, state.Place(), w.vol.Now(), base, ahead)
  }

  /** Writing does not disturb a reader: the moment m, some writing, and now. */
  lemma ServesStable(state: ClusterReadState, w: StreamArchiver, m: Moment, since: Moment, base: seq<seq<Item>>,
                     more: seq<seq<Item>>, ahead: seq<Record>)
    requires state.extents.stream.vol == w.vol && state.extents.stream != w
    requires ServedAt(state.dentriesPerCluster, state.Place(), m, base, ahead)
    requires Later(m, w.vol.Now()) && Written(w, since, base, more)
    ensures Serves(state, w, base, ahead)
  {
    hide Later, Reading;
    var p := state.Place();
    assert w.vol.log.segs[p.s] == base[p.s];
    ReaderStable(m, w.vol.Now(), state.dentriesPerCluster, p);
  }

  /** The name with its segments from n on in place and the others only reserved. */
  ghost function PartialName(name: seq<seq<Unit>>, n: nat): (items: seq<Item>)
    ensures |items| == |name|
    ensures forall i :: 0 <= i < |name| ==> items[i] == if i < n then Reserved(NAME_SIZE) else NameItem(name[i])
  {
    seq(|name|, i requires 0 <= i < |name| => if i < n then Reserved(NAME_SIZE) else NameItem(name[i]))
  }

  lemma PartialNameStep(more: seq<seq<Item>>, name: seq<seq<Unit>>, n: nat)
    requires n <= |name|
    ensures PartialName(name, 0) == NameItems(name)
    ensures PartialName(name, |name|) == ReservedItems(|name|, NAME_SIZE)
    ensures n < |name| ==>
              var before := more + [PartialName(name, n + 1)];
              before[|more| := before[|more|][n := NameItem(name[n])]] == more + [PartialName(name, n)]
  {
    if n < |name| {
      assert PartialName(name, n + 1)[n := NameItem(name[n])] == PartialName(name, n);
    }
  }

  /** One turn of the loop in read_lfn. */
  method ReadLfnEntry(w: StreamArchiver, state: ClusterReadState, entry: Record, addr: Addr, ghost n: nat,
                      ghost name: seq<seq<Unit>>, ghost since: Moment, ghost base: seq<seq<Item>>,
                      ghost more: seq<seq<Item>>, ghost ahead: seq<Record>)
    returns (next: Record)
    requires Serves(state, w, base, ahead) && ahead != []
    requires n < |name| && name[n] == LfnUnits(entry)
    requires Written(w, since, base, more + [PartialName(name, n + 1)])
    requires AddressOf(w.vol.log, |base| + |more|, n, addr)
    modifies w.vol, w.vol.disk, state, state.extents, state.extents.stream
    ensures w.vol.payload == old(w.vol.payload) && Later(old(w.vol.Now()), w.vol.Now())
    ensures Uses(old(w.vol.Now()), w.vol.Now(), 0, 0)
    ensures next == ahead[0] && Serves(state, w, base, ahead[1..])
    ensures Written(w, since, base, more + [PartialName(name, n)])
  {
    hide Later, Volume.Valid, AtEndOf, AddressOf, ReaderOk, PendingRecords, ExtentIterator.Rest;
    ghost var m0 := w.vol.Now();
    Fill(w, addr, NameItem(LfnUnits(entry)), since, base, more + [PartialName(name, n + 1)], |more|, n);
    PartialNameStep(more, name, n);
    ServesStable(state, w, m0, since, base, more + [PartialName(name, n)], ahead);
    var r := state.NextDentry();
    next := r.value;
  }

  /** read_lfn: fill in the reserved name segments, last one first. */
  method ReadLfn(w: StreamArchiver, state: ClusterReadState, first: Record, addrs: seq<Addr>,
                 ghost since: Moment, ghost base: seq<seq<Item>>, ghost more: seq<seq<Item>>, ghost live: seq<Record>)
    returns (record: Record)
    requires IsLfn(first) && |addrs| == NameRecords(first) < |live| && live[0] == first
    requires Serves(state, w, base, live[1..])
    requires Written(w, since, base, more + [ReservedItems(|addrs|, NAME_SIZE)])
    requires forall i :: 0 <= i < |addrs| ==> AddressOf(w.vol.log, |base| + |more|, i, addrs[i])
    modifies w.vol, w.vol.disk, state, state.extents, state.extents.stream
    ensures w.vol.payload == old(w.vol.payload) && Later(old(w.vol.Now()), w.vol.Now())
    ensures Uses(old(w.vol.Now()), w.vol.Now(), 0, 0)
    ensures record == live[|addrs|] && Serves(state, w, base, live[|addrs| + 1..])
    ensures Written(w, since, base, more + [NameItems(NameSegments(live))])
  {
    hide Later, Written, AddressOf, Serves, Uses;
    ghost var m0, name, n := w.vol.Now(), NameSegments(live), |addrs|;
    LaterReflexive(m0);
    UsesNothing(m0);
    PartialNameStep(more, name, 0);
    record := first;
    var i := |addrs|;
    while i > 0
      invariant 0 <= i <= n
      invariant w.vol.payload == old(w.vol.payload) && Later(m0, w.vol.Now()) && Uses(m0, w.vol.Now(), 0, 0)
      invariant record == live[n - i] && Serves(state, w, base, live[n - i + 1..])
      invariant Written(w, since, base, more + [PartialName(name, i)])
      invariant forall j :: 0 <= j < n ==> AddressOf(w.vol.log, |base| + |more|, j, addrs[j])
    {
      i := i - 1;
      ghost var m1 := w.vol.Now();
      record := ReadLfnEntry(w, state, record, addrs[i], i, name, since, base, more, live[n - i..]);
      LaterStable(m0, m1, w.vol.Now());
      UsesTransitive(m0, m1, w.vol.Now(), 0, 0, 0, 0);
      forall j | 0 <= j < n ensures AddressOf(w.vol.log, |base| + |more|, j, addrs[j]) {
        AddressStable(m1.log, w.vol.log, |base| + |more|, j, addrs[j]);
      }
    }
  }

  lemma LaterStable(a: Moment, b: Moment, c: Moment)
    requires Later(a, b) && Later(b, c)
    ensures Later(a, c) && Grows(a.log, b.log) && Grows(b.log, c.log)
  {
    LaterTransitive(a, b, c);
  }

  lemma ReservedThenFilled(before: seq<seq<Item>>, item: Item, size: nat, rest: seq<seq<Item>>)
    ensures var more := before + [ReservedItems(1, size)] + rest;
            more[|before| := more[|before|][0 := item]] == before + [[item]] + rest
  {
    assert ReservedItems(1, size)[0 := item] == [item];
  }

  /** The name of an entry goes into its reserved segments; record is the one that counts. */
  method WriteName(w: StreamArchiver, state: ClusterReadState, first: Record, addrs: seq<Addr>, ghost since: Moment,
                   ghost base: seq<seq<Item>>, ghost more: seq<seq<Item>>, ghost live: seq<Record>)
    returns (record: Record)
    requires NameRecords(first) < |live| && live[0] == first
    requires |addrs| == if IsLfn(first) then LfnSequenceNo(first) else 1
    requires Serves(state, w, base, live[1..])
    requires Written(w, since, base, more + [ReservedItems(|addrs|, NAME_SIZE)])
    requires forall i :: 0 <= i < |addrs| ==> AddressOf(w.vol.log, |base| + |more|, i, addrs[i])
    modifies w.vol, w.vol.disk, state, state.extents, state.extents.stream
    ensures w.vol.payload == old(w.vol.payload) && Later(old(w.vol.Now()), w.vol.Now())
    ensures Uses(old(w.vol.Now()), w.vol.Now(), 0, 0)
    ensures record == live[NameRecords(first)] && Serves(state, w, base, live[NameRecords(first) + 1..])
    ensures Written(w, since, base, more + [NameItems(NameSegments(live))])
  {
    hide Later, Written, AddressOf, ServedAt;
    if IsLfn(first) {
      record := ReadLfn(w, state, first, addrs, since, base, more, live);
    } else {
      record := first;
      ghost var m0 := w.vol.Now();
      var units := ReadShortName(first);
      ReservedThenFilled(more, NameItem(units), NAME_SIZE, []);
      assert more + [ReservedItems(1, NAME_SIZE)] + [] == more + [ReservedItems(1, NAME_SIZE)];
      Fill(w, addrs[0], NameItem(units), since, base, more + [ReservedItems(1, NAME_SIZE)], |more|, 0);
      assert NameItems(NameSegments(live)) == [NameItem(units)];
      assert more + [[NameItem(units)]] + [] == more + [NameItems(NameSegments(live))];
      ServesStable(state, w, m0, since, base, more + [NameItems(NameSegments(live))], live[1..]);
    }
  }

  /** Room for a record and for its name. */
  method ReserveRecordAndName(w: StreamArchiver, first: Record, ghost since: Moment, ghost base: seq<seq<Item>>)
    returns (ok: bool, dentry: Addr, addrs: seq<Addr>)
    requires Written(w, since, base, [])
    modifies w, w.vol, w.vol.disk, w.vol.allocator, w.vol.allocator.bitmap
    ensures !ok ==> w.vol.GaveUp(since)
    ensures Uses(old(w.vol.Now()), w.vol.Now(), 3 + if IsLfn(first) then LfnSequenceNo(first) else 1, 0)
    ensures ok ==>
              && Later(old(w.vol.Now()), w.vol.Now())
              && |addrs| == (if IsLfn(first) then LfnSequenceNo(first) else 1)
              && Written(w, since, base, [ReservedItems(1, DENTRY_SIZE)] + [ReservedItems(|addrs|, NAME_SIZE)])
              && AddressOf(w.vol.log, |base|, 0, dentry)
              && forall i :: 0 <= i < |addrs| ==> AddressOf(w.vol.log, |base| + 1, i, addrs[i])
  {
    hide Later, Written, AddressOf;
    ghost var m0 := w.vol.Now();
    var dentries;
    ok, dentries := ReserveSegment(w, 1, DENTRY_SIZE, since, base);
    dentry, addrs := Addr(0, 0), [];
    if !ok { return; }
    dentry := dentries[0];
    ghost var m1, more := w.vol.Now(), [ReservedItems(1, DENTRY_SIZE)];
    WrittenRebase(w, since, base, more, []);
    assert more + [] == more;
    var count := if IsLfn(first) then LfnSequenceNo(first) else 1;
    ok, addrs := ReserveSegment(w, count, NAME_SIZE, since, base + more);
    if !ok { return; }
    WrittenRebase(w, since, base, more, [ReservedItems(count, NAME_SIZE)]);
    LaterStable(m0, m1, w.vol.Now());
    AddressStable(m1.log, w.vol.log, |base|, 0, dentry);
  }

  lemma NameCount(live: seq<Record>)
    requires 0 < |live| && NameRecords(live[0]) <= |live|
    ensures |NameSegments(live)| == if IsLfn(live[0]) then LfnSequenceNo(live[0]) else 1
  {
  }

  /** The start of a turn in traverse: room for the record, the name, then the record itself. */
  method WriteRecordAndName(w: StreamArchiver, state: ClusterReadState, first: Record, ghost since: Moment,
                            ghost base: seq<seq<Item>>, ghost live: seq<Record>)
    returns (ok: bool, record: Record)
    requires NameRecords(first) < |live| && live[0] == first
    requires Serves(state, w, base, live[1..]) && Written(w, since, base, [])
    modifies w, w.vol, w.vol.disk, w.vol.allocator, w.vol.allocator.bitmap, state, state.extents, state.extents.stream
    ensures !ok ==> w.vol.GaveUp(since)
    ensures Uses(old(w.vol.Now()), w.vol.Now(), 3 + |NameSegments(live)|, 0)
    ensures ok ==>
              && Later(old(w.vol.Now()), w.vol.Now())
              && record == live[NameRecords(first)] && Serves(state, w, base, live[NameRecords(first) + 1..])
              && Written(w, since, base, [[DentryItem(record)]] + [NameItems(NameSegments(live))])
  {
    hide Later, Written, AddressOf, ServedAt, Volume.Intact, Uses, NameSegments, Volume.Valid, Volume.GaveUp;
    ghost var m0, n, slots := w.vol.Now(), NameRecords(first), 3 + |NameSegments(live)|;
    NameCount(live);
    var dentry, addrs;
    record := first;
    ok, dentry, addrs := ReserveRecordAndName(w, first, since, base);
    if !ok { return; }
    ghost var m1, more, name := w.vol.Now(), [ReservedItems(1, DENTRY_SIZE)], [NameItems(NameSegments(live))];
    ServesStable(state, w, m0, since, base, more + [ReservedItems(|addrs|, NAME_SIZE)], live[1..]);
    record := WriteName(w, state, first, addrs, since, base, more, live);
    ghost var m2 := w.vol.Now();
    LaterStable(m0, m1, m2);
    UsesTransitive(m0, m1, m2, slots, 0, 0, 0);
    AddressStable(m1.log, m2.log, |base|, 0, dentry);
    ReservedThenFilled([], DentryItem(record), DENTRY_SIZE, name);
    assert [] + more + name == more + name && [] + [[DentryItem(record)]] + name == [[DentryItem(record)]] + name;
    Fill(w, dentry, DentryItem(record), since, base, more + name, 0, 0);
    LaterStable(m0, m2, w.vol.Now());
    UsesTransitive(m0, m2, w.vol.Now(), slots, 0, 0, 0);
    ServesStable(state, w, m2, since, base, [[DentryItem(record)]] + name, live[n + 1..]);
  }

  // --- The recursion over the tree -----------------------------------------------------

  lemma RehomedImage(blocked: seq<Extent>, initial: map<nat, Cluster>, payload: map<nat, Cluster>,
                     before: set<nat>, after: set<nat>, src: seq<nat>, dst: seq<nat>)
    requires Relocated(blocked, payload, before, after, src, dst) && Grown(initial, payload)
    requires forall c :: c in src ==> c in initial && FAT_START_INDEX <= c
    requires forall c :: c in before ==> FAT_START_INDEX <= c
    ensures Image(initial, payload, src, dst)
  {
    forall i | 0 <= i < |src|
      ensures src[i] in initial && dst[i] in payload && payload[dst[i]] == initial[src[i]] && FAT_START_INDEX <= dst[i]
    {
      assert src[i] in src;
    }
  }

  lemma ImageGrows(initial: map<nat, Cluster>, payload: map<nat, Cluster>, payload2: map<nat, Cluster>,
                   src: seq<nat>, dst: seq<nat>)
    requires Image(initial, payload, src, dst) && Grown(payload, payload2)
    ensures Image(initial, payload2, src, dst)
  {
  }

  lemma ServesRebase(state: ClusterReadState, w: StreamArchiver, base: seq<seq<Item>>, base2: seq<seq<Item>>,
                     ahead: seq<Record>)
    requires Serves(state, w, base, ahead)
    requires state.extents.s < |base2| && base2[state.extents.s] == base[state.extents.s]
    ensures Serves(state, w, base2, ahead)
  {
  }

  /** The entry m is the entry e with its contents moved. */
  ghost predicate SameEntry(e: FatEntry, m: MovedEntry) {
    && m.record == e.record && m.name == e.name
    && Tiled(m.place, 0) && |Clusters(m.place)| == |e.place|
    && SameShape(e.children, m.children)
  }

  /** The extents of one entry, and a cursor at their start. */
  method TraversePlace(w: StreamArchiver, fat: seq<nat>, clusterNo: nat, ghost since: Moment,
                       ghost base: seq<seq<Item>>,
                       ghost chain: seq<nat>, ghost initial: map<nat, Cluster>)
    returns (ok: bool, extentStream: StreamArchiver, ghost out: seq<Extent>)
    requires Written(w, since, base, []) && Grown(initial, since.payload)
    requires clusterNo < |fat| && IsChain(fat, w.vol.allocator.clusterCount, clusterNo, chain)
    requires forall c :: c in chain ==> c in initial
    modifies w, w.vol, w.vol.disk, w.vol.allocator, w.vol.allocator.bitmap
    ensures !ok ==> w.vol.GaveUp(since)
    ensures Uses(old(w.vol.Now()), w.vol.Now(), |chain| + 1, Moving(w.vol.allocator.blocked, chain))
    ensures fresh(extentStream) && extentStream.vol == w.vol
    ensures ok ==>
              && Written(w, since, base, [ExtentItems(out)]) && Later(old(w.vol.Now()), w.vol.Now())
              && CursorAt(w.vol.log, extentStream.Pos(), |base|, 0)
              && Tiled(out, 0) && |Clusters(out)| == |chain|
              && Image(initial, w.vol.payload, chain, Clusters(out))
              && Relocated(w.vol.allocator.blocked, w.vol.payload, old(w.vol.allocator.Remaining()),
                           w.vol.allocator.Remaining(), chain, Clusters(out))
  {
    hide Volume.Valid, Volume.Intact, ArchiveOk, Consumed, Grows, Relocated, Aggregated, Clusters, Tiled, IsChain;
    ghost var m0 := w.vol.Now();
    WrittenIsValid(w, since, base, []);
    w.vol.AvailableIsOpen();
    ChainInRange(fat, w.vol.allocator.clusterCount, clusterNo, chain);
    GrownTransitive(initial, since.payload, m0.payload);
    extentStream := new StreamArchiver.CopyOf(w);
    ghost var pos, runs := w.Pos(), [];
    ok, runs, out := AggregateExtents(w, fat, clusterNo, chain);
    LaterTransitive(since, m0, w.vol.Now());
    if !ok { return; }
    AppendedToEmpty(m0.log.segs, base, ExtentItems(out));
    GrownTransitive(initial, m0.payload, w.vol.payload);
    CursorStable(m0.log, w.vol.log, pos, |base|, 0);
    RehomedImage(w.vol.allocator.blocked, initial, w.vol.payload, m0.remaining, w.vol.allocator.Remaining(),
                 chain, Clusters(out));
    RelocatedLength(w.vol.allocator.blocked, w.vol.payload, m0.remaining, w.vol.allocator.Remaining(),
                    chain, Clusters(out));
  }

  lemma ChainInRange(fat: seq<nat>, clusterCount: nat, first: nat, chain: seq<nat>)
    requires IsChain(fat, clusterCount, first, chain)
    ensures forall c :: c in chain ==> FAT_START_INDEX <= c < clusterCount
  {
  }

  lemma RelocatedLength(blocked: seq<Extent>, payload: map<nat, Cluster>, before: set<nat>, after: set<nat>,
                        src: seq<nat>, dst: seq<nat>)
    requires Relocated(blocked, payload, before, after, src, dst)
    ensures |src| == |dst|
  {
  }

  lemma AppendedToEmpty(segs: seq<seq<Item>>, base: seq<seq<Item>>, items: seq<Item>)
    requires segs == base + [] + [[]]
    ensures |segs| == |base| + 1 && Appended(segs, items) + [[]] == base + [items] + [[]]
  {
    assert [] + items == items;
  }

  /** reserve_children_count, and the count itself. */
  method WriteCount(w: StreamArchiver, count: nat, ghost since: Moment, ghost base: seq<seq<Item>>)
    returns (ok: bool, addr: Addr)
    requires Written(w, since, base, [])
    modifies w, w.vol, w.vol.disk, w.vol.allocator, w.vol.allocator.bitmap
    ensures !ok ==> w.vol.GaveUp(since)
    ensures Uses(old(w.vol.Now()), w.vol.Now(), 2, 0)
    ensures ok ==>
              && Later(old(w.vol.Now()), w.vol.Now()) && Written(w, since, base, [[CountItem(count)]])
              && AddressOf(w.vol.log, |base|, 0, addr)
  {
    hide Later, Written, AddressOf, Volume.Intact;
    ghost var m0 := w.vol.Now();
    var addrs;
    addr := Addr(0, 0);
    ok, addrs := ReserveSegment(w, 1, COUNT_SIZE, since, base);
    if !ok { return; }
    addr := addrs[0];
    ghost var m1 := w.vol.Now();
    ReservedThenFilled([], CountItem(count), COUNT_SIZE, []);
    assert [] + [ReservedItems(1, COUNT_SIZE)] + [] == [ReservedItems(1, COUNT_SIZE)];
    assert [] + [[CountItem(count)]] + [] == [[CountItem(count)]];
    Fill(w, addr, CountItem(count), since, base, [ReservedItems(1, COUNT_SIZE)], 0, 0);
    LaterStable(m0, m1, w.vol.Now());
    AddressStable(m1.log, w.vol.log, |base|, 0, addr);
  }

  /** (*children_count)++ */
  method IncrementCount(w: StreamArchiver, addr: Addr, ghost count: nat, ghost since: Moment,
                        ghost base: seq<seq<Item>>, ghost rest: seq<seq<Item>>)
    requires Written(w, since, base, [[CountItem(count)]] + rest) && AddressOf(w.vol.log, |base|, 0, addr)
    modifies w.vol, w.vol.disk
    ensures w.vol.payload == old(w.vol.payload) && Later(old(w.vol.Now()), w.vol.Now())
    ensures Uses(old(w.vol.Now()), w.vol.Now(), 0, 0)
    ensures Written(w, since, base, [[CountItem(count + 1)]] + rest)
    ensures AddressOf(w.vol.log, |base|, 0, addr)
  {
    hide Later, AddressOf, Volume.Valid, Volume.Intact, ArchiveOk, AtEndOf;
    ghost var m0 := w.vol.Now();
    w.vol.ValidIsIntact();
    ItemAt(w.vol.disk[..], w.vol.log, w.vol.pageSize, |base|, 0, addr);
    assert w.vol.log.segs[|base|] == [CountItem(count)];
    var n := w.vol.disk[addr.page].cells[addr.offset].item.count;
    Fill(w, addr, CountItem(n + 1), since, base, [[CountItem(count)]] + rest, 0, 0);
    assert [CountItem(count)][0 := CountItem(n + 1)] == [CountItem(count + 1)];
    assert ([[CountItem(count)]] + rest)[0 := [CountItem(count + 1)]] == [[CountItem(count + 1)]] + rest;
    LaterReflexive(m0);
    LaterStable(m0, m0, w.vol.Now());
    AddressStable(m0.log, w.vol.log, |base|, 0, addr);
  }

  lemma EntryEncoded(e: MovedEntry, tail: seq<seq<Item>>)
    requires tail == if IsDir(e.record) then EncodeDir(e.children) else [[CountItem(NO_CHILDREN)]]
    ensures ([[DentryItem(e.record)]] + [NameItems(e.name)]) + ([ExtentItems(e.place)] + tail) == EncodeEntry(e)
  {
  }

  /** One entry in traverse: record, name, contents, and the directory below it. */
  method TraverseEntry(w: StreamArchiver, state: ClusterReadState, fat: seq<nat>, dpc: nat, first: Record,
                       ghost since: Moment, ghost base: seq<seq<Item>>, ghost live: seq<Record>,
                       ghost e: FatEntry, ghost initial: map<nat, Cluster>)
    returns (ok: bool, ghost m: MovedEntry)
    requires 0 < dpc && Grown(initial, since.payload)
    requires NameRecords(first) < |live| && live[0] == first
    requires e.record == live[NameRecords(first)] && e.name == NameSegments(live)
    requires RepresentsEntry(fat, w.vol.allocator.clusterCount, dpc, initial, e)
    requires Serves(state, w, base, live[1..]) && Written(w, since, base, [])
    modifies w, w.vol, w.vol.disk, w.vol.allocator, w.vol.allocator.bitmap, state, state.extents, state.extents.stream
    ensures !ok ==> w.vol.GaveUp(since)
    ensures Uses(old(w.vol.Now()), w.vol.Now(), EntrySlots(e), Moving(w.vol.allocator.blocked, FlatEntry(e)))
    ensures ok ==>
              && Later(old(w.vol.Now()), w.vol.Now()) && Written(w, since, base, EncodeEntry(m))
              && Serves(state, w, base, live[NameRecords(first) + 1..])
              && SameEntry(e, m)
              && Relocated(w.vol.allocator.blocked, w.vol.payload, old(w.vol.allocator.Remaining()),
                           w.vol.allocator.Remaining(), FlatEntry(e), PlacesEntry(m))
    decreases e, 1
  {
    hide Later, Written, AddressOf, ServedAt, Relocated, Consumed, Clusters, Tiled, IsChain, Image, Grows, Represents,
         Uses, EntrySlots, Slots, Moving, FlatEntry, NameSegments, Volume.GaveUp, Volume.Valid, SameShape, Grown;
    ghost var m0, blocked, n := w.vol.Now(), w.vol.allocator.blocked, NameRecords(first);
    m := Entry(e.record, e.name, [], []);
    var record;
    ok, record := WriteRecordAndName(w, state, first, since, base, live);
    RecordUses(blocked, m0, w.vol.Now(), e);
    if !ok { return; }
    ghost var m1, head := w.vol.Now(), [[DentryItem(record)]] + [NameItems(e.name)];
    WrittenRebase(w, since, base, head, []);
    assert head + [] == head;
    var extentStream;
    ghost var place;
    ok, extentStream, place := TraversePlace(w, fat, ClusterNo(record), since, base + head, e.place, initial);
    PlaceUses(blocked, m0, m1, w.vol.Now(), e);
    if !ok { return; }
    ghost var m2 := w.vol.Now();
    LaterStable(m0, m1, m2);
    ghost var children, tail;
    ok, children, tail := TraverseBelow(w, extentStream, fat, dpc, IsDir(record), since, base + head, place, e,
                                        initial);
    EntryUses(blocked, m0, m2, w.vol.Now(), e);
    if !ok { return; }
    ghost var m3 := w.vol.Now();
    FlatParts(e, place, children);
    m := Entry(e.record, e.name, place, children);
    LaterStable(m0, m2, m3);
    WrittenRebase(w, since, base, head, [ExtentItems(place)] + tail);
    EntryEncoded(m, tail);
    LaterStable(m1, m2, m3);
    ServesStable(state, w, m1, since, base, EncodeEntry(m), live[n + 1..]);
    LaterRemaining(m0, m1);
    LaterRemaining(m1, m2);
    LaterRemaining(m2, m3);
    RelocatedGrows(blocked, m2.payload, m3.payload, m1.remaining, m2.remaining, m2.remaining, e.place, Clusters(place));
    RelocatedAppend(blocked, m3.payload, m1.remaining, m2.remaining, m3.remaining,
                    e.place, Clusters(place), Flat(e.children), Places(children));
    RelocatedWiden(blocked, m3.payload, m1.remaining, m0.remaining, m3.remaining, FlatEntry(e), PlacesEntry(m));
  }

  lemma FlatParts(e: FatEntry, place: seq<Extent>, children: seq<MovedEntry>)
    ensures FlatEntry(e) == e.place + Flat(e.children)
  {
  }

  // What the parts of an entry use, one after the other.

  lemma RecordUses(blocked: seq<Extent>, m0: Moment, m1: Moment, e: FatEntry)
    requires Uses(m0, m1, 3 + |e.name|, 0)
    ensures Uses(m0, m1, EntrySlots(e), Moving(blocked, FlatEntry(e)))
  {
    hide Moving;
  }

  lemma PlaceUses(blocked: seq<Extent>, m0: Moment, m1: Moment, m2: Moment, e: FatEntry)
    requires Uses(m0, m1, 3 + |e.name|, 0) && Uses(m1, m2, |e.place| + 1, Moving(blocked, e.place))
    ensures Uses(m0, m2, 4 + |e.name| + |e.place|, Moving(blocked, e.place))
    ensures Uses(m0, m2, EntrySlots(e), Moving(blocked, FlatEntry(e)))
  {
    hide Moving;
    MovingAppend(blocked, e.place, Flat(e.children));
  }

  lemma EntryUses(blocked: seq<Extent>, m0: Moment, m2: Moment, m3: Moment, e: FatEntry)
    requires Uses(m0, m2, 4 + |e.name| + |e.place|, Moving(blocked, e.place))
    requires Uses(m2, m3, 2 + Slots(e.children), Moving(blocked, Flat(e.children)))
    ensures Uses(m0, m3, EntrySlots(e), Moving(blocked, FlatEntry(e)))
  {
    hide Moving;
    MovingAppend(blocked, e.place, Flat(e.children));
  }

  lemma LaterRemaining(a: Moment, b: Moment)
    requires Later(a, b)
    ensures Consumed(a.remaining, b.remaining) && b.remaining <= a.remaining && Grown(a.payload, b.payload)
  {
  }

  /** What follows the extents of an entry: the directory's contents, or the mark of a file. */
  method TraverseBelow(w: StreamArchiver, extentStream: StreamArchiver, fat: seq<nat>, dpc: nat, isDir: bool,
                       ghost since: Moment, ghost base: seq<seq<Item>>, ghost place: seq<Extent>, ghost e: FatEntry,
                       ghost initial: map<nat, Cluster>)
    returns (ok: bool, ghost children: seq<MovedEntry>, ghost tail: seq<seq<Item>>)
    requires isDir == IsDir(e.record) && 0 < dpc && Grown(initial, since.payload)
    requires extentStream != w && extentStream.vol == w.vol
    requires RepresentsEntry(fat, w.vol.allocator.clusterCount, dpc, initial, e)
    requires Written(w, since, base, [ExtentItems(place)])
    requires CursorAt(w.vol.log, extentStream.Pos(), |base|, 0)
    requires Image(initial, w.vol.payload, e.place, Clusters(place))
    modifies extentStream, w, w.vol, w.vol.disk, w.vol.allocator, w.vol.allocator.bitmap
    ensures !ok ==> w.vol.GaveUp(since)
    ensures Uses(old(w.vol.Now()), w.vol.Now(), 2 + Slots(e.children),
                 Moving(w.vol.allocator.blocked, Flat(e.children)))
    ensures ok ==>
              && Later(old(w.vol.Now()), w.vol.Now()) && Written(w, since, base, [ExtentItems(place)] + tail)
              && tail == (if IsDir(e.record) then EncodeDir(children) else [[CountItem(NO_CHILDREN)]])
              && SameShape(e.children, children)
              && Relocated(w.vol.allocator.blocked, w.vol.payload, old(w.vol.allocator.Remaining()),
                           w.vol.allocator.Remaining(), Flat(e.children), Places(children))
    decreases e, 0
  {
    hide Later, AddressOf, Relocated, Clusters, Image, Grows, CursorAt, Volume.Valid, Volume.Intact, AtEndOf;
    ghost var m0, base1 := w.vol.Now(), base + [ExtentItems(place)];
    children := [];
    assert [ExtentItems(place)] + [] == [ExtentItems(place)];
    WrittenRebase(w, since, base, [ExtentItems(place)], []);
    if isDir {
      assert w.vol.log.segs[|base|] == ExtentItems(place);
      ok, children := TraverseDir(extentStream, w, fat, dpc, since, base1, |base|, place, e.place, e.children, initial);
      tail := EncodeDir(children);
    } else {
      tail := [[CountItem(NO_CHILDREN)]];
      var addr;
      ok, addr := WriteCount(w, NO_CHILDREN, since, base1);
      NothingRelocated(w.vol.allocator.blocked, w.vol.payload, m0.remaining, w.vol.allocator.Remaining());
    }
    WrittenRebase(w, since, base, [ExtentItems(place)], tail);
  }

  lemma NothingRelocated(blocked: seq<Extent>, payload: map<nat, Cluster>, before: set<nat>, after: set<nat>)
    ensures Relocated(blocked, payload, before, after, Flat([]), Places([]))
    ensures SameShape([], [])
  {
  }

  /** The loop in traverse stands before child i: out has been written, these records are ahead. */
  ghost predicate Listing(w: StreamArchiver, m0: Moment, since: Moment, base: seq<seq<Item>>,
                          children: seq<FatEntry>, i: nat, out: seq<MovedEntry>, count: Addr)
    reads w, w.vol, w.vol.disk, w.vol.allocator, w.vol.allocator.bitmap
  {
    && i == |out| <= |children|
    && Written(w, since, base, [[CountItem(i)]] + Encode(out)) && Later(m0, w.vol.Now())
    && AddressOf(w.vol.log, |base|, 0, count)
    && SameShape(children[..i], out)
    && Relocated(w.vol.allocator.blocked, w.vol.payload, m0.remaining, w.vol.allocator.Remaining(),
                 Flat(children[..i]), Places(out))
  }

  lemma ListingStarts(w: StreamArchiver, m0: Moment, since: Moment, base: seq<seq<Item>>, children: seq<FatEntry>,
                      count: Addr)
    requires Written(w, since, base, [[CountItem(0)]]) && Later(m0, w.vol.Now())
    requires AddressOf(w.vol.log, |base|, 0, count)
    ensures Listing(w, m0, since, base, children, 0, [], count)
  {
    hide Later, Written, AddressOf;
    assert [[CountItem(0)]] + Encode([]) == [[CountItem(0)]];
    assert children[..0] == [];
    NothingRelocated(w.vol.allocator.blocked, w.vol.payload, m0.remaining, w.vol.allocator.Remaining());
  }

  lemma ListingIsWritten(w: StreamArchiver, m0: Moment, since: Moment, base: seq<seq<Item>>, children: seq<FatEntry>,
                         i: nat, out: seq<MovedEntry>, count: Addr)
    requires Listing(w, m0, since, base, children, i, out, count)
    ensures Written(w, since, base, [[CountItem(i)]] + Encode(out)) && i == |out| <= |children|
  {
  }

  lemma ListingEnds(w: StreamArchiver, m0: Moment, since: Moment, base: seq<seq<Item>>, children: seq<FatEntry>,
                    i: nat, out: seq<MovedEntry>, count: Addr)
    requires Listing(w, m0, since, base, children, i, out, count) && i == |children|
    ensures Later(m0, w.vol.Now()) && Written(w, since, base, EncodeDir(out)) && SameShape(children, out)
    ensures Relocated(w.vol.allocator.blocked, w.vol.payload, m0.remaining, w.vol.allocator.Remaining(),
                      Flat(children), Places(out))
  {
    hide Later, Written, AddressOf, Relocated;
    assert children[..i] == children;
  }

  /** The entries that traverse finds in a directory with these children. */
  ghost function DirEntries(fat: seq<nat>, clusterCount: nat, dpc: nat, content: map<nat, Cluster>,
                            chain: seq<nat>, children: seq<FatEntry>): (entries: seq<RawEntry>)
    requires Represents(fat, clusterCount, dpc, content, chain, children)
    ensures DirClusters(content, chain, dpc) && |entries| == |children|
    ensures Parse(Live(RecordsOf(content, chain))) == Entries(entries[0..])
    ensures forall i :: 0 <= i < |children| ==>
              && children[i].record == entries[i].record && children[i].name == entries[i].name
              && RepresentsEntry(fat, clusterCount, dpc, content, children[i])
  {
    var entries := Parse(Live(RecordsOf(content, chain))).entries;
    assert entries[0..] == entries;
    entries
  }

  lemma NothingMoreToParse(live: seq<Record>, entries: seq<RawEntry>)
    requires live == [] || IsDirTableEnd(live[0])
    requires Parse(live) == Entries(entries)
    ensures entries == []
  {
  }

  /** next_dentry on a reader in use. */
  method NextLive(w: StreamArchiver, state: ClusterReadState, ghost since: Moment, ghost base: seq<seq<Item>>,
                  ghost more: seq<seq<Item>>, ghost ahead: seq<Record>)
    returns (r: Option<Record>)
    requires Serves(state, w, base, ahead) && Written(w, since, base, more)
    modifies state, state.extents, state.extents.stream
    ensures Serves(state, w, base, if ahead == [] then [] else ahead[1..])
    ensures r == if ahead == [] then None else Some(ahead[0])
  {
    hide Later, Volume.Valid, AtEndOf, ReaderOk, PendingRecords, ExtentIterator.Rest;
    r := state.NextDentry();
  }

  /** One turn of the loop in traverse. */
  method TraverseTurn(w: StreamArchiver, state: ClusterReadState, fat: seq<nat>, dpc: nat, first: Record,
                      ghost m0: Moment, ghost since: Moment, ghost base: seq<seq<Item>>, ghost s: nat,
                      ghost live: seq<Record>, ghost children: seq<FatEntry>, ghost i: nat, ghost out: seq<MovedEntry>,
                      count: Addr, ghost initial: map<nat, Cluster>)
    returns (ok: bool, ghost m: MovedEntry)
    requires 0 < dpc && Grown(initial, since.payload)
    requires NameRecords(first) < |live| && live[0] == first && i < |children|
    requires children[i].record == live[NameRecords(first)] && children[i].name == NameSegments(live)
    requires RepresentsEntry(fat, w.vol.allocator.clusterCount, dpc, initial, children[i])
    requires Listing(w, m0, since, base, children, i, out, count)
    requires Serves(state, w, base, live[1..]) && state.extents.s == s < |base|
    modifies w, w.vol, w.vol.disk, w.vol.allocator, w.vol.allocator.bitmap, state, state.extents, state.extents.stream
    ensures !ok ==> w.vol.GaveUp(since)
    ensures Uses(old(w.vol.Now()), w.vol.Now(), EntrySlots(children[i]),
                 Moving(w.vol.allocator.blocked, FlatEntry(children[i])))
    ensures ok ==>
              && Listing(w, m0, since, base, children, i + 1, out + [m], count)
              && Serves(state, w, base, live[NameRecords(first) + 1..])
    decreases children[i], 2
  {
    hide Later, Written, AddressOf, ServedAt, Relocated, Grows, RepresentsEntry, Encode, SameShape, Flat, Places,
         Volume.GaveUp, Volume.Intact, NameRecords, NameSegments, Volume.Valid, Consumed, EncodeEntry, FlatEntry,
         PlacesEntry, Tiled, Clusters, Grown, Live;
    ghost var m1, blocked, inner := w.vol.Now(), w.vol.allocator.blocked, [[CountItem(i)]] + Encode(out);
    assert inner + [] == inner;
    WrittenRebase(w, since, base, inner, []);
    ServesRebase(state, w, base, base + inner, live[1..]);
    ok, m := TraverseEntry(w, state, fat, dpc, first, since, base + inner, live, children[i], initial);
    if !ok { return; }
    ghost var m2 := w.vol.Now();
    ServesRebase(state, w, base + inner, base, live[NameRecords(first) + 1..]);
    WrittenRebase(w, since, base, inner, EncodeEntry(m));
    EncodeSnoc(out, m);
    assert inner + EncodeEntry(m) == [[CountItem(i)]] + Encode(out + [m]);
    LaterStable(m0, m1, m2);
    AddressStable(m1.log, m2.log, |base|, 0, count);
    IncrementCount(w, count, i, since, base, Encode(out + [m]));
    LaterStable(m0, m2, w.vol.Now());
    ServesStable(state, w, m2, since, base, [[CountItem(i + 1)]] + Encode(out + [m]), live[NameRecords(first) + 1..]);
    SameShapeSnoc(children, i, out, m);
    ListingRelocated(blocked, m0, m1, m2, w.vol.Now(), children, i, out, m);
  }

  lemma ListingRelocated(blocked: seq<Extent>, m0: Moment, m1: Moment, m2: Moment, m3: Moment,
                         children: seq<FatEntry>, i: nat, out: seq<MovedEntry>, m: MovedEntry)
    requires Later(m0, m1) && Later(m1, m2) && Later(m2, m3) && m3.payload == m2.payload && i < |children|
    requires Relocated(blocked, m1.payload, m0.remaining, m1.remaining, Flat(children[..i]), Places(out))
    requires Relocated(blocked, m2.payload, m1.remaining, m2.remaining, FlatEntry(children[i]), PlacesEntry(m))
    ensures Relocated(blocked, m3.payload, m0.remaining, m3.remaining, Flat(children[..i + 1]), Places(out + [m]))
  {
    hide Relocated, Grows;
    FlatPrefix(children, i);
    PlacesSnoc(out, m);
    RelocatedGrows(blocked, m1.payload, m2.payload, m0.remaining, m1.remaining, m1.remaining, Flat(children[..i]),
                   Places(out));
    RelocatedAppend(blocked, m2.payload, m0.remaining, m1.remaining, m2.remaining,
                    Flat(children[..i]), Places(out), FlatEntry(children[i]), PlacesEntry(m));
    RelocatedGrows(blocked, m2.payload, m3.payload, m0.remaining, m2.remaining, m3.remaining,
                   Flat(children[..i + 1]), Places(out + [m]));
  }

  /** What a directory has used when i of its entries have been written. */
  ghost predicate DirUses(blocked: seq<Extent>, m0: Moment, m: Moment, children: seq<FatEntry>, i: nat) {
    i <= |children| && Uses(m0, m, 2 + Slots(children[..i]), Moving(blocked, Flat(children[..i])))
  }

  lemma CountUses(blocked: seq<Extent>, m0: Moment, m: Moment, children: seq<FatEntry>)
    requires Uses(m0, m, 2, 0)
    ensures DirUses(blocked, m0, m, children, 0) && Uses(m0, m, 2 + Slots(children), Moving(blocked, Flat(children)))
  {
    assert children[..0] == [] && Slots([]) == 0 && Flat([]) == [];
  }

  lemma TurnUses(blocked: seq<Extent>, m0: Moment, m1: Moment, m2: Moment, children: seq<FatEntry>, i: nat)
    requires DirUses(blocked, m0, m1, children, i) && i < |children|
    requires Uses(m1, m2, EntrySlots(children[i]), Moving(blocked, FlatEntry(children[i])))
    ensures DirUses(blocked, m0, m2, children, i + 1)
    ensures Uses(m0, m2, 2 + Slots(children), Moving(blocked, Flat(children)))
  {
    hide Moving, FlatEntry, EntrySlots;
    SlotsPrefix(children, i);
    FlatPrefix(children, i);
    MovingAppend(blocked, Flat(children[..i]), FlatEntry(children[i]));
    DirUsesAll(blocked, m0, m2, children, i + 1);
  }

  lemma DirUsesAll(blocked: seq<Extent>, m0: Moment, m: Moment, children: seq<FatEntry>, i: nat)
    requires DirUses(blocked, m0, m, children, i)
    ensures Uses(m0, m, 2 + Slots(children), Moving(blocked, Flat(children)))
  {
    hide Moving, Slots, Flat;
    SlotsGrow(children, i);
    FlatAppend(children[..i], children[i..]);
    assert children[..i] + children[i..] == children;
    MovingAppend(blocked, Flat(children[..i]), Flat(children[i..]));
  }

  /** traverse: write the directory whose extents are segment s. */
  method TraverseDir(dirExtentStream: StreamArchiver, w: StreamArchiver, fat: seq<nat>, dpc: nat, ghost since: Moment,
                     ghost base: seq<seq<Item>>, ghost s: nat, ghost place: seq<Extent>, ghost chain: seq<nat>,
                     ghost children: seq<FatEntry>, ghost initial: map<nat, Cluster>)
    returns (ok: bool, ghost out: seq<MovedEntry>)
    requires 0 < dpc && Grown(initial, since.payload) && dirExtentStream != w && dirExtentStream.vol == w.vol
    requires Written(w, since, base, []) && s < |base| && base[s] == ExtentItems(place)
    requires CursorAt(w.vol.log, dirExtentStream.Pos(), s, 0)
    requires Image(initial, w.vol.payload, chain, Clusters(place))
    requires Represents(fat, w.vol.allocator.clusterCount, dpc, initial, chain, children)
    modifies dirExtentStream, w, w.vol, w.vol.disk, w.vol.allocator, w.vol.allocator.bitmap
    ensures !ok ==> w.vol.GaveUp(since)
    ensures Uses(old(w.vol.Now()), w.vol.Now(), 2 + Slots(children), Moving(w.vol.allocator.blocked, Flat(children)))
    ensures ok ==>
              && Later(old(w.vol.Now()), w.vol.Now()) && Written(w, since, base, EncodeDir(out))
              && SameShape(children, out)
              && Relocated(w.vol.allocator.blocked, w.vol.payload, old(w.vol.allocator.Remaining()),
                           w.vol.allocator.Remaining(), Flat(children), Places(out))
    decreases children
  {
    hide Later, Written, AddressOf, ServedAt, Image, Grows, CursorAt, Represents, Parse, Listing, Relocated,
         SameShape, Live, RecordsOf, IsDirTableEnd, ServedAt, Volume.GaveUp, Volume.Valid, Grown, DirClusters, Encode,
         EncodeDir, Flat, Places, NameRecords, RepresentsEntry, NameSegments, Serves, Volume.Intact, Consumed, Clusters,
         Uses, Slots, EntrySlots, Moving;
    ghost var m0, cc, blocked := w.vol.Now(), w.vol.allocator.clusterCount, w.vol.allocator.blocked;
    ghost var live := Live(RecordsOf(initial, chain));
    ghost var entries := DirEntries(fat, cc, dpc, initial, chain, children);
    out := [];
    var count;
    ok, count := WriteCount(w, 0, since, base);
    CountUses(blocked, m0, w.vol.Now(), children);
    if !ok { return; }
    ListingStarts(w, m0, since, base, children, count);
    var state := OpenDirectory(dirExtentStream, w, dpc, m0, since, base, [[CountItem(0)]], s, place, chain, initial);
    var current := NextLive(w, state, since, base, [[CountItem(0)]], live);
    ghost var i := 0;
    while current.Some? && !IsDirTableEnd(current.value)
      invariant 0 <= i <= |children|
      invariant Listing(w, m0, since, base, children, i, out, count)
      invariant Serves(state, w, base, if live == [] then [] else live[1..])
      invariant current == if live == [] then None else Some(live[0])
      invariant Parse(live) == Entries(entries[i..])
      invariant DirUses(blocked, m0, w.vol.Now(), children, i)
      decreases |live|
    {
      ParseStep(live, entries[i..]);
      ghost var m;
      ghost var m1 := w.vol.Now();
      ok, m := TraverseTurn(w, state, fat, dpc, current.value, m0, since, base, s, live, children, i, out, count,
                            initial);
      TurnUses(blocked, m0, m1, w.vol.Now(), children, i);
      if !ok { return; }
      i, out, live := i + 1, out + [m], live[NameRecords(live[0]) + 1..];
      ListingIsWritten(w, m0, since, base, children, i, out, count);
      current := NextLive(w, state, since, base, [[CountItem(i)]] + Encode(out), live);
    }
    NothingMoreToParse(live, entries[i..]);
    assert children[..|children|] == children;
    DirUsesAll(blocked, m0, w.vol.Now(), children, i);
    ListingEnds(w, m0, since, base, children, i, out, count);
  }

  /** The reader over a directory whose extents have just been written. */
  method OpenDirectory(dirExtentStream: StreamArchiver, w: StreamArchiver, dpc: nat, ghost m0: Moment,
                       ghost since: Moment,
                       ghost base: seq<seq<Item>>, ghost more: seq<seq<Item>>, ghost s: nat, ghost place: seq<Extent>,
                       ghost chain: seq<nat>, ghost initial: map<nat, Cluster>)
    returns (state: ClusterReadState)
    requires 0 < dpc && dirExtentStream != w && dirExtentStream.vol == w.vol
    requires Written(w, since, base, more) && Later(m0, w.vol.Now())
    requires s < |base| && base[s] == ExtentItems(place)
    requires CursorAt(m0.log, dirExtentStream.Pos(), s, 0)
    requires Image(initial, m0.payload, chain, Clusters(place)) && DirClusters(initial, chain, dpc)
    modifies dirExtentStream
    ensures fresh(state) && fresh(state.extents) && state.extents.stream == dirExtentStream
    ensures state.extents.s == s
    ensures Serves(state, w, base, Live(RecordsOf(initial, chain)))
  {
    hide AddressOf, Clusters, CursorAt, Volume.Valid, Volume.Intact, ArchiveOk, AtEndOf, Consumed, Reading,
         DirClusters, Image, RecordsOf;
    w.vol.ValidIsIntact();
    CursorStable(m0.log, w.vol.log, dirExtentStream.Pos(), s, 0);
    ImageGrows(initial, m0.payload, w.vol.payload, chain, Clusters(place));
    ImageRecords(initial, w.vol.payload, chain, Clusters(place), dpc);
    ImageInRange(initial, w.vol.payload, chain, Clusters(place));
    assert w.vol.log.segs[s] == base[s];
    var extents := new ExtentIterator(dirExtentStream, s, place);
    state := new ClusterReadState(extents, dpc);
  }

  lemma ImageInRange(content: map<nat, Cluster>, payload: map<nat, Cluster>, src: seq<nat>, dst: seq<nat>)
    requires Image(content, payload, src, dst)
    ensures forall c :: c in dst ==> FAT_START_INDEX <= c
  {
  }
}
