/** The contents of the files, from the FAT volume to their final places. */
module Payload {
  import opened Aggregator
  import opened Allocator
  import opened Archive
  import opened Archiver
  import opened Builder
  import opened Dentry
  import opened Disk
  import opened Ext4
  import opened Ext4Tree
  import opened ExtentTree
  import opened Extents
  import opened Fat
  import opened FatRecord
  import opened Geometry
  import opened Tree
  import opened Util

  /** Every file of the forest es has its contents at its extents in out, cluster by cluster. */
  ghost predicate FilesIntact(initial: map<nat, Cluster>, content: map<nat, Cluster>, es: seq<FatEntry>,
                              out: seq<MovedEntry>)
    decreases es
  {
    && |es| == |out|
    && forall i :: 0 <= i < |es| ==>
         if IsDir(es[i].record) then FilesIntact(initial, content, es[i].children, out[i].children)
         else Image(initial, content, es[i].place, Clusters(out[i].place))
  }

  lemma {:induction false} SameLength(es: seq<FatEntry>, out: seq<MovedEntry>)
    requires SameShape(es, out)
    ensures |Flat(es)| == |Places(out)|
    decreases es
  {
    hide Clusters;
    if es != [] {
      var n := |es| - 1;
      assert SameShape(es[..n], out[..n]);
      SameLength(es[..n], out[..n]);
      SameLength(es[n].children, out[n].children);
    }
  }

  lemma ImagePart(initial: map<nat, Cluster>, content: map<nat, Cluster>, a: seq<nat>, b: seq<nat>, c: seq<nat>,
                  a2: seq<nat>, b2: seq<nat>, c2: seq<nat>)
    requires Image(initial, content, a + b + c, a2 + b2 + c2) && |a| == |a2| && |b| == |b2|
    ensures Image(initial, content, b, b2)
  {
    forall i | 0 <= i < |b|
      ensures b[i] in initial && b2[i] in content && content[b2[i]] == initial[b[i]] && FAT_START_INDEX <= b2[i]
    {
      assert (a + b + c)[|a| + i] == b[i] && (a2 + b2 + c2)[|a| + i] == b2[i];
    }
  }

  lemma ImageOfEntry(initial: map<nat, Cluster>, content: map<nat, Cluster>, es: seq<FatEntry>, out: seq<MovedEntry>,
                     i: nat)
    requires SameShape(es, out) && Image(initial, content, Flat(es), Places(out)) && i < |es|
    ensures Image(initial, content, es[i].place, Clusters(out[i].place))
    ensures Image(initial, content, Flat(es[i].children), Places(out[i].children))
  {
    hide Image, Clusters, Flat, Places;
    FlatSplit(es, i);
    PlacesSplit(out, i);
    assert SameShape(es[..i], out[..i]);
    SameLength(es[..i], out[..i]);
    SameLength(es[i].children, out[i].children);
    ImageHalves(initial, content, Flat(es[..i]), es[i].place, Flat(es[i].children), Flat(es[i + 1..]),
                Places(out[..i]), Clusters(out[i].place), Places(out[i].children), Places(out[i + 1..]));
  }

  lemma ImageHalves(initial: map<nat, Cluster>, content: map<nat, Cluster>, a: seq<nat>, b: seq<nat>, c: seq<nat>,
                    d: seq<nat>,
                    a2: seq<nat>, b2: seq<nat>, c2: seq<nat>, d2: seq<nat>)
    requires Image(initial, content, a + (b + c) + d, a2 + (b2 + c2) + d2) && |a| == |a2| && |b| == |b2| && |c| == |c2|
    ensures Image(initial, content, b, b2) && Image(initial, content, c, c2)
  {
    hide Image;
    ImagePart(initial, content, a, b + c, d, a2, b2 + c2, d2);
    assert [] + b + c == b + c && [] + b2 + c2 == b2 + c2;
    ImagePart(initial, content, [], b, c, [], b2, c2);
    assert b + c + [] == b + c && b2 + c2 + [] == b2 + c2;
    ImagePart(initial, content, b, c, [], b2, c2, []);
  }

  lemma FlatSplit(es: seq<FatEntry>, i: nat)
    requires i < |es|
    ensures Flat(es) == Flat(es[..i]) + (es[i].place + Flat(es[i].children)) + Flat(es[i + 1..])
  {
    hide Flat;
    assert es == es[..i + 1] + es[i + 1..];
    FlatAppend(es[..i + 1], es[i + 1..]);
    FlatPrefix(es, i);
  }

  lemma PlacesSplit(es: seq<MovedEntry>, i: nat)
    requires i < |es|
    ensures Places(es) == Places(es[..i]) + (Clusters(es[i].place) + Places(es[i].children)) + Places(es[i + 1..])
  {
    hide Places, Clusters, DirPlaces;
    assert es == es[..i + 1] + es[i + 1..];
    PlacesAppend(es[..i + 1], es[i + 1..]);
    PlacesPrefix(es, i);
  }

  /** Moving all clusters of a tree moves its files. */
  lemma {:induction false} FilesMoved(initial: map<nat, Cluster>, content: map<nat, Cluster>, es: seq<FatEntry>,
                                      out: seq<MovedEntry>)
    requires SameShape(es, out) && Image(initial, content, Flat(es), Places(out))
    ensures FilesIntact(initial, content, es, out)
    decreases es
  {
    hide Image, Clusters, Flat, Places;
    forall i | 0 <= i < |es|
      ensures if IsDir(es[i].record) then FilesIntact(initial, content, es[i].children, out[i].children)
              else Image(initial, content, es[i].place, Clusters(out[i].place))
    {
      ImageOfEntry(initial, content, es, out, i);
      FilesMoved(initial, content, es[i].children, out[i].children);
    }
  }

  // --- Where the files are -------------------------------------------------------------

  ghost function FilePlaces(es: seq<MovedEntry>): seq<nat>
    decreases es, 0
  {
    if es == [] then [] else FilePlaces(es[..|es| - 1]) + FilePlacesEntry(Last(es))
  }

  ghost function FilePlacesEntry(e: MovedEntry): seq<nat>
    decreases e, 1
  {
    (if IsDir(e.record) then [] else Clusters(e.place)) + FilePlaces(e.children)
  }

  lemma {:induction false} FilePlacesOf(es: seq<MovedEntry>, i: nat)
    requires i < |es|
    ensures forall c :: c in FilePlacesEntry(es[i]) ==> c in FilePlaces(es)
    decreases |es|
  {
    hide FilePlacesEntry;
    var n := |es| - 1;
    if i < n { FilePlacesOf(es[..n], i); }
  }

  /** A file's clusters do not depend on those of directories. */
  lemma {:induction false} FilesKept(initial: map<nat, Cluster>, content: map<nat, Cluster>,
                                     content2: map<nat, Cluster>, es: seq<FatEntry>, out: seq<MovedEntry>)
    requires FilesIntact(initial, content, es, out) && SameShape(es, out)
    requires forall c :: c in FilePlaces(out) && c in content ==> c in content2 && content2[c] == content[c]
    ensures FilesIntact(initial, content2, es, out)
    decreases es
  {
    hide Clusters, FilePlaces;
    forall i | 0 <= i < |es|
      ensures if IsDir(es[i].record) then FilesIntact(initial, content2, es[i].children, out[i].children)
              else Image(initial, content2, es[i].place, Clusters(out[i].place))
    {
      FilePlacesOf(out, i);
      if IsDir(es[i].record) {
        FilesKept(initial, content, content2, es[i].children, out[i].children);
      }
    }
  }

  lemma DistinctParts(a: seq<nat>, b: seq<nat>)
    requires Distinct(a + b)
    ensures Distinct(a) && Distinct(b)
    ensures forall c :: c in a ==> c !in b
  {
    assert a + (b + []) == a + b && a + [] == a;
    DistinctDrop(a, b, []);
    forall c | c in a ensures c !in b {
      assert c in a + [];
    }
  }

  /** When no cluster is used twice, those of files are not those of directories. */
  lemma {:induction false} FilePlacesApart(es: seq<MovedEntry>)
    requires Distinct(Places(es))
    ensures forall c :: c in FilePlaces(es) ==> c in Places(es) && c !in DirPlaces(es)
    decreases es
  {
    hide Distinct, Clusters;
    DirPlacesInPlaces(es);
    if es != [] {
      var init, e := es[..|es| - 1], Last(es);
      DistinctParts(Places(init), PlacesEntry(e));
      DistinctParts(Clusters(e.place), Places(e.children));
      FilePlacesApart(init);
      FilePlacesApart(e.children);
      DirPlacesInPlaces(init);
      DirPlacesInPlaces(e.children);
      forall c | c in FilePlaces(es) ensures c in Places(es) && c !in DirPlaces(es) {
        assert c in FilePlaces(init) || c in FilePlacesEntry(e);
      }
    }
  }

  // --- Reading the files of the ext4 tree ----------------------------------------------

  /** The blocks of an extent that hold contents. In ext4 a length above 2 to the 15 marks an extent
      that has been allocated but not written, and reads as zeros. */
  function WrittenBlocks(e: Ext4Extent): nat { if e.len <= 0x8000 then e.len else 0 }

  /** The block that holds logical block k of a file with these extents. */
  ghost function MapBlock(exts: seq<Ext4Extent>, k: nat): Option<nat> {
    if exts == [] then None
    else if Last(exts).block <= k < Last(exts).block + WrittenBlocks(Last(exts)) then
      Some(FromLoHi32(Last(exts).start) + (k - Last(exts).block))
    else MapBlock(exts[..|exts| - 1], k)
  }

  /** The contents of logical block k of a file, from its inode on. */
  ghost function ReadBlock(g: Geo, content: map<nat, Cluster>, inode: Inode, k: nat): Option<Cluster>
    requires g.Valid()
  {
    match Leaves(g, content, inode.root)
    case None => None
    case Some(exts) =>
      match MapBlock(exts, k)
      case None => None
      case Some(block) =>
        var c := g.E4BlkToFatCl(block);
        if c in content then Some(content[c]) else None
  }

  ghost predicate InVolume(g: Geo, clusters: seq<nat>)
    requires g.Valid()
  {
    forall i :: 0 <= i < |clusters| ==> FAT_START_INDEX <= clusters[i] < g.DataClusterCount()
  }

  lemma {:induction false} MapBlockFinds(g: Geo, place: seq<Extent>, k: nat)
    requires g.Valid() && Tiled(place, 0) && Storable(place) && InVolume(g, Clusters(place))
    ensures MapBlock(ToExt4s(g, place), k)
            == if k < |Clusters(place)| then Some(g.FatClToE4Blk(Clusters(place)[k])) else None
    decreases |place|
  {
    hide Geo.Valid, FromLoHi32, SetLoHi48, Clusters, Run, Geo.FatClToE4Blk, InVolume, ToExt4s, MapBlock, Storable;
    NoClusters(g);
    if place != [] {
      var init, e := place[..|place| - 1], Last(place);
      assert place == init + [e] && e in place;
      ClustersSnoc(init, e);
      ToExt4sSnoc(g, init, e);
      InVolumePrefix(g, Clusters(init), Run(e.physicalStart, e.length));
      MapBlockFinds(g, init, k);
      MapBlockSnoc(ToExt4s(g, init), ToExt4Extent(g, e), k);
      ExtentMapped(g, e, Clusters(place), |Clusters(init)|, k);
    }
  }

  lemma ToExt4sSnoc(g: Geo, init: seq<Extent>, e: Extent)
    requires Storable(init + [e])
    ensures e in init + [e] && Storable(init) && ToExt4s(g, init + [e]) == ToExt4s(g, init) + [ToExt4Extent(g, e)]
    ensures FAT_START_INDEX <= e.physicalStart && 1 <= e.length <= EXT4_MAX_INIT_EXTENT_LEN
  {
    assert (init + [e])[|init|] in init + [e];
    forall x | x in init ensures x in init + [e] {
    }
  }

  lemma InVolumePrefix(g: Geo, a: seq<nat>, b: seq<nat>)
    requires g.Valid() && InVolume(g, a + b)
    ensures InVolume(g, a) && (a + b)[|a|..] == b
  {
    hide Geo.GroupsHoldMetadata;
    assert forall i :: 0 <= i < |a| ==> a[i] == (a + b)[i];
  }

  lemma NoClusters(g: Geo)
    ensures Clusters([]) == [] && Storable([]) && ToExt4s(g, []) == [] && forall k: nat :: MapBlock([], k) == None
  {
  }

  lemma MapBlockSnoc(exts: seq<Ext4Extent>, e: Ext4Extent, k: nat)
    ensures MapBlock(exts + [e], k)
            == if e.block <= k < e.block + WrittenBlocks(e) then Some(FromLoHi32(e.start) + (k - e.block))
               else MapBlock(exts, k)
  {
    assert (exts + [e])[..|exts|] == exts;
  }

  /** The last extent holds the clusters behind the first n. */
  lemma ExtentMapped(g: Geo, e: Extent, clusters: seq<nat>, n: nat, k: nat)
    requires g.Valid() && InVolume(g, clusters) && n < |clusters| && FAT_START_INDEX <= e.physicalStart
    requires 1 <= e.length <= EXT4_MAX_INIT_EXTENT_LEN
    requires clusters[n..] == Run(e.physicalStart, e.length)
    ensures n <= k < n + WrittenBlocks(ToExt4Extent(g, e)) <==> n <= k < |clusters|
    ensures n <= k < |clusters| ==>
              FromLoHi32(ToExt4Extent(g, e).start) + (k - n) == g.FatClToE4Blk(clusters[k])
  {
    hide Geo.GroupsHoldMetadata, FromLoHi32, SetLoHi48;
    assert clusters[n] == clusters[n..][0] == e.physicalStart;
    AddressStored(g, e.physicalStart);
    if n <= k < |clusters| {
      assert clusters[k] == clusters[n..][k - n] == e.physicalStart + (k - n);
    }
  }

  /** Read from its inode, the file has the contents of these clusters. */
  ghost predicate ReadsAs(g: Geo, content: map<nat, Cluster>, inode: Inode, initial: map<nat, Cluster>, chain: seq<nat>)
    requires g.Valid()
  {
    forall k: nat :: ReadBlock(g, content, inode, k)
                     == if k < |chain| && chain[k] in initial then Some(initial[chain[k]]) else None
  }

  lemma FileReads(g: Geo, s: State, content: map<nat, Cluster>, no: nat, inode: Inode, record: Record,
                  place: seq<Extent>, initial: map<nat, Cluster>, chain: seq<nat>)
    requires g.Valid() && IsFile(g, s.final, Owned(s, no), inode, record, place) && Tiled(place, 0)
    requires Grown(s.final, content) && Image(initial, content, chain, Clusters(place))
    requires forall c :: c in s.owner ==> FAT_START_INDEX <= c < g.DataClusterCount()
    ensures ReadsAs(g, content, inode, initial, chain) && inode.size == Halves(Length(record), 0)
  {
    hide Geo.GroupsHoldMetadata, Leaves, CountsBlocks, SetLoHi32, Clusters, Tiled, MapBlock, Storable;
    LeavesStable(g, s.final, content, inode.root);
    forall i | 0 <= i < |Clusters(place)| ensures FAT_START_INDEX <= Clusters(place)[i] < g.DataClusterCount() {
      assert Clusters(place)[i] in Clusters(place) && Clusters(place)[i] in Owned(s, no);
    }
    forall k: nat
      ensures ReadBlock(g, content, inode, k)
              == if k < |chain| && chain[k] in initial then Some(initial[chain[k]]) else None
    {
      MapBlockFinds(g, place, k);
      if k < |chain| {
        AddressRoundTrip(g, Clusters(place)[k], 0);
      }
    }
  }

  /** Every file of the forest es, which has become inodes from first on, is read as it was, and is
      as long as its record says. */
  ghost predicate FilesRead(g: Geo, s: State, content: map<nat, Cluster>, initial: map<nat, Cluster>, first: nat,
                            es: seq<FatEntry>, out: seq<MovedEntry>)
    requires g.Valid()
    decreases es
  {
    && |es| == |out|
    && forall i :: 0 <= i < |es| ==>
         var no := NumberOf(first, out, i);
         if IsDir(es[i].record) then FilesRead(g, s, content, initial, no + 1, es[i].children, out[i].children)
         else
           && no in s.sealed && ReadsAs(g, content, s.sealed[no], initial, es[i].place)
           && s.sealed[no].size == Halves(Length(es[i].record), 0)
  }

  lemma {:induction false} TreeFilesRead(g: Geo, s: State, content: map<nat, Cluster>, initial: map<nat, Cluster>,
                                         first: nat, parent: nat, es: seq<FatEntry>, out: seq<MovedEntry>)
    requires g.Valid() && TreeBuilt(g, s, first, parent, out, |out|) && SameShape(es, out)
    requires FilesIntact(initial, content, es, out) && Grown(s.final, content)
    requires forall c :: c in s.owner ==> FAT_START_INDEX <= c < g.DataClusterCount()
    ensures FilesRead(g, s, content, initial, first, es, out)
    decreases es
  {
    hide Geo.GroupsHoldMetadata, IsFile, IsDirectory, ReadsAs, Image, Clusters, Tiled, EntryCount, ListingOf, Length;
    forall i | 0 <= i < |es|
      ensures var no := NumberOf(first, out, i);
              if IsDir(es[i].record) then FilesRead(g, s, content, initial, no + 1, es[i].children, out[i].children)
              else
                && no in s.sealed && ReadsAs(g, content, s.sealed[no], initial, es[i].place)
                && s.sealed[no].size == Halves(Length(es[i].record), 0)
    {
      var no := NumberOf(first, out, i);
      assert EntryBuilt(g, s, no, parent, out[i]);
      if IsDir(es[i].record) {
        TreeFilesRead(g, s, content, initial, no + 1, no, es[i].children, out[i].children);
      } else {
        FileReads(g, s, content, no, s.sealed[no], out[i].record, out[i].place, initial, es[i].place);
      }
    }
  }
}
