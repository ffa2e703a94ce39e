/** Reading the records of a directory cluster by cluster (metadata_reader.cpp). */
module DirReader {
  import opened Fat
  import opened Allocator
  import opened Disk
  import opened Archive
  import opened Archiver
  import opened Extents
  import opened Aggregator
  import opened Dentry
  import opened Tree
  import opened ExtentIterator

  lemma {:induction false} RecordsStable(a: map<nat, Cluster>, b: map<nat, Cluster>, clusters: seq<nat>, dpc: nat)
    requires Grown(a, b) && DirClusters(a, clusters, dpc)
    ensures DirClusters(b, clusters, dpc) && RecordsOf(b, clusters) == RecordsOf(a, clusters)
  {
    if clusters != [] {
      assert clusters[0] in clusters;
      RecordsStable(a, b, clusters[1..], dpc);
    }
  }

  lemma LiveStep(records: seq<Record>)
    requires records != []
    ensures IsLive(records[0]) ==> Live(records) != [] && Live(records)[0] == records[0]
                                   && Live(records)[1..] == Live(records[1..])
    ensures !IsLive(records[0]) ==> Live(records) == Live(records[1..])
  {
  }

  lemma FirstCluster(content: map<nat, Cluster>, clusters: seq<nat>, dpc: nat)
    requires DirClusters(content, clusters, dpc) && forall c :: c in clusters ==> FAT_START_INDEX <= c
    ensures DirClusters(content, [], dpc) && RecordsOf(content, []) == []
    ensures clusters != [] ==>
              && DirClusters(content, [clusters[0]], dpc) && DirClusters(content, clusters[1..], dpc)
              && FAT_START_INDEX <= clusters[0] && (forall c :: c in clusters[1..] ==> FAT_START_INDEX <= c)
              && clusters[0] in content && content[clusters[0]].Data?
              && RecordsOf(content, clusters) == content[clusters[0]].records + RecordsOf(content, clusters[1..])
  {
    if clusters != [] {
      assert clusters[0] in clusters;
      forall c | c in clusters[1..] ensures c in clusters {
      }
    }
  }

  /** Everything that makes up the place of a reader. */
  datatype ReaderPlace = ReaderPlace(clusterDentry: nat, current: nat, extent: Option<Extent>, cluster: nat,
                                     s: nat, es: seq<Extent>, k: nat, pos: Position, rest: seq<nat>)

  /** A reader stands at this place: its iterator is in order, and the clusters still to be
      read hold directory records. */
  ghost predicate ReaderOk(log: Log, payload: map<nat, Cluster>, dpc: nat, p: ReaderPlace) {
    && Reading(log, p.pos, p.s, p.es, p.k, p.extent, p.cluster) && 0 < dpc
    && DirClusters(payload, p.rest, dpc)
    && (forall c :: c in p.rest ==> FAT_START_INDEX <= c)
    && if p.current == 0 then p.rest == [] && p.clusterDentry == 0
       else DirClusters(payload, [p.current], dpc) && p.clusterDentry <= dpc
  }

  /** The records still to be read, live or not. */
  ghost function PendingRecords(payload: map<nat, Cluster>, p: ReaderPlace): seq<Record> {
    (if p.current != 0 && p.current in payload && payload[p.current].Data?
        && p.clusterDentry <= |payload[p.current].records|
     then payload[p.current].records[p.clusterDentry..] else [])
    + RecordsOf(payload, p.rest)
  }

  /** What is pending begins with the record the reader stands on. */
  lemma PendingStep(log: Log, payload: map<nat, Cluster>, dpc: nat, p: ReaderPlace)
    requires ReaderOk(log, payload, dpc, p)
    ensures p.current == 0 ==> PendingRecords(payload, p) == []
    ensures p.clusterDentry == dpc ==> p.current != 0 && PendingRecords(payload, p) == RecordsOf(payload, p.rest)
    ensures p.current != 0 && p.clusterDentry < dpc ==>
              var p' := p.(clusterDentry := p.clusterDentry + 1);
              && p.current in payload && payload[p.current].Data? && p.clusterDentry < |payload[p.current].records|
              && PendingRecords(payload, p)
                 == [payload[p.current].records[p.clusterDentry]] + PendingRecords(payload, p')
              && ReaderOk(log, payload, dpc, p')
    ensures p.clusterDentry <= dpc && 0 < dpc && Reading(log, p.pos, p.s, p.es, p.k, p.extent, p.cluster)
    ensures DirClusters(payload, p.rest, dpc) && forall c :: c in p.rest ==> FAT_START_INDEX <= c
  {
    hide Reading;
    if p.current != 0 {
      assert p.current in [p.current];
      var records := payload[p.current].records;
      if p.clusterDentry < dpc {
        assert records[p.clusterDentry..] == [records[p.clusterDentry]] + records[p.clusterDentry + 1..];
      } else {
        assert records[p.clusterDentry..] == [];
      }
    }
  }

  /** A reader keeps its place while the archive and the payload grow. */
  lemma ReaderStable(m1: Moment, m2: Moment, dpc: nat, p: ReaderPlace)
    requires ReaderOk(m1.log, m1.payload, dpc, p) && Later(m1, m2) && ExtentSegment(m2.log, p.s, p.es)
    ensures ReaderOk(m2.log, m2.payload, dpc, p)
    ensures PendingRecords(m2.payload, p) == PendingRecords(m1.payload, p)
  {
    hide Grows, CursorAt, Consumed, RecordsOf;
    ReadingStable(m1.log, m2.log, p.pos, p.s, p.es, p.k, p.extent, p.cluster);
    RecordsStable(m1.payload, m2.payload, p.rest, dpc);
    if p.current != 0 {
      RecordsStable(m1.payload, m2.payload, [p.current], dpc);
      assert p.current in [p.current];
    }
  }

  /** struct cluster_read_state; current is the cluster being read, 0 for NULL. */
  class ClusterReadState {
    const extents: ExtentIterator
    const dentriesPerCluster: nat
    var clusterDentry: nat
    var current: nat

    ghost function Place(): ReaderPlace
      reads this, extents, extents.stream
    {
      ReaderPlace(clusterDentry, current, extents.currentExtent, extents.currentCluster,
                  extents.s, extents.es, extents.k, extents.stream.Pos(), extents.Rest())
    }

    ghost predicate Valid()
      reads this, extents, extents.stream, extents.stream.vol
    {
      ReaderOk(extents.stream.vol.log, extents.stream.vol.payload, dentriesPerCluster, Place())
    }

    ghost function Pending(): seq<Record>
      reads this, extents, extents.stream, extents.stream.vol
    {
      PendingRecords(extents.stream.vol.payload, Place())
    }

    /** init_read_state */
    constructor (extents: ExtentIterator, dentriesPerCluster: nat)
      requires extents.stream.vol.Valid() && extents.Valid() && 0 < dentriesPerCluster
      requires DirClusters(extents.stream.vol.payload, extents.Rest(), dentriesPerCluster)
      requires forall c :: c in extents.Rest() ==> FAT_START_INDEX <= c
      modifies extents, extents.stream
      ensures Valid() && this.extents == extents && this.dentriesPerCluster == dentriesPerCluster
      ensures Pending() == RecordsOf(extents.stream.vol.payload, old(extents.Rest()))
    {
      this.extents, this.dentriesPerCluster := extents, dentriesPerCluster;
      this.clusterDentry, this.current := 0, 0;
      new;
      NextCluster();
    }

    /** The body of init_read_state: go to the first record of the next cluster. */
    method NextCluster()
      requires extents.stream.vol.Valid() && extents.Valid() && 0 < dentriesPerCluster
      requires DirClusters(extents.stream.vol.payload, extents.Rest(), dentriesPerCluster)
      requires forall c :: c in extents.Rest() ==> FAT_START_INDEX <= c
      modifies this, extents`currentExtent, extents`currentCluster, extents`k, extents.stream
      ensures Valid() && Pending() == RecordsOf(extents.stream.vol.payload, old(extents.Rest()))
      ensures clusterDentry == 0
    {
      hide Volume.Valid, Volume.Intact, ArchiveOk, Reading, DirClusters, RecordsOf, ExtentIterator.Rest;
      ghost var rest := extents.Rest();
      extents.stream.vol.ValidIsIntact();
      FirstCluster(extents.stream.vol.payload, rest, dentriesPerCluster);
      current := extents.NextClusterNo();
      clusterDentry := 0;
    }

    /** One turn of the loop in next_dentry: the next record, live or not. */
    method NextRecord() returns (r: Option<Record>)
      requires extents.stream.vol.Valid() && Valid()
      modifies this, extents`currentExtent, extents`currentCluster, extents`k, extents.stream
      ensures Valid()
      ensures old(Pending()) == [] ==> r.None? && Pending() == []
      ensures old(Pending()) != [] ==> r == Some(old(Pending())[0]) && Pending() == old(Pending())[1..]
    {
      hide Volume.Valid, Volume.Intact, ArchiveOk, Reading, ExtentIterator.Rest, ReaderOk, PendingRecords, DirClusters;
      ghost var log, payload, dpc := extents.stream.vol.log, extents.stream.vol.payload, dentriesPerCluster;
      PendingStep(log, payload, dpc, Place());
      if clusterDentry >= dentriesPerCluster {
        NextCluster();
        PendingStep(log, payload, dpc, Place());
      }
      if current == 0 {
        return None;
      }
      extents.stream.vol.PayloadIsOnDisk(current);
      r := Some(extents.stream.vol.disk[current].records[clusterDentry]);
      clusterDentry := clusterDentry + 1;
    }

    /** next_dentry: the next record that is neither deleted nor . or .. */
    method NextDentry() returns (r: Option<Record>)
      requires extents.stream.vol.Valid() && Valid()
      modifies this, extents`currentExtent, extents`currentCluster, extents`k, extents.stream
      ensures Valid()
      ensures Live(old(Pending())) == [] ==> r.None? && Live(Pending()) == []
      ensures Live(old(Pending())) != [] ==>
                r == Some(Live(old(Pending()))[0]) && Live(Pending()) == Live(old(Pending()))[1..]
    {
      hide Volume.Valid, ClusterReadState.Valid, ClusterReadState.Pending;
      while true
        invariant Valid() && extents.stream.vol.Valid() && Live(Pending()) == Live(old(Pending()))
        decreases |Pending()|
      {
        ghost var pending := Pending();
        r := NextRecord();
        if r.None? { return; }
        LiveStep(pending);
        if IsLive(r.value) { return; }
      }
    }
  }
}
