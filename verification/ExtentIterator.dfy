/** The cursor over the clusters of a stored list of extents (extent_iterator.cpp). */
module ExtentIterator {
  import opened Fat
  import opened Allocator
  import opened Disk
  import opened Archive
  import opened Archiver
  import opened Extents
  import opened Aggregator

  /** Segment s is closed and holds exactly the extents es. */
  ghost predicate ExtentSegment(log: Log, s: nat, es: seq<Extent>) {
    s + 1 < |log.segs| && log.segs[s] == ExtentItems(es)
  }

  /** The stream has read k extents of segment s, the last of which is current; without a
      current extent it has read the cut as well. */
  ghost predicate Reading(log: Log, pos: Position, s: nat, es: seq<Extent>, k: nat, current: Option<Extent>,
                          cluster: nat) {
    && ExtentSegment(log, s, es) && k <= |es|
    && match current
       case None => k == |es| && CursorAt(log, pos, s + 1, 0)
       case Some(e) => CursorAt(log, pos, s, k) && cluster <= e.length
  }

  lemma ReadingStable(log: Log, log2: Log, pos: Position, s: nat, es: seq<Extent>, k: nat, current: Option<Extent>,
                      cluster: nat)
    requires Reading(log, pos, s, es, k, current, cluster)
    requires Grows(log, log2) && ExtentSegment(log2, s, es)
    ensures Reading(log2, pos, s, es, k, current, cluster)
  {
  }

  class ExtentIterator {
    const stream: StreamArchiver
    var currentExtent: Option<Extent>
    var currentCluster: nat
    ghost const s: nat
    ghost const es: seq<Extent>
    ghost var k: nat

    ghost predicate Valid()
      reads this, stream, stream.vol
    {
      Reading(stream.vol.log, stream.Pos(), s, es, k, currentExtent, currentCluster)
    }

    /** The clusters still to come. */
    ghost function Rest(): seq<nat>
      reads this
    {
      if currentExtent.None? || k > |es| then []
      else
        var e := currentExtent.value;
        (if currentCluster <= e.length
         then Run(e.physicalStart + currentCluster, e.length - currentCluster) else [])
        + Clusters(es[k..])
    }

    /** init */
    constructor (stream: StreamArchiver, ghost s: nat, ghost es: seq<Extent>)
      requires ArchiveOk(stream.vol.disk[..], stream.vol.log, stream.vol.pageSize)
      requires ExtentSegment(stream.vol.log, s, es) && CursorAt(stream.vol.log, stream.Pos(), s, 0)
      modifies stream
      ensures this.stream == stream && this.s == s && this.es == es
      ensures Valid() && Rest() == Clusters(es)
    {
      this.stream := stream;
      this.s, this.es, this.k := s, es, 0;
      this.currentExtent, this.currentCluster := None, 0;
      new;
      Fetch();
    }

    /** The common part of init: take the next extent of the segment. */
    method Fetch()
      requires ArchiveOk(stream.vol.disk[..], stream.vol.log, stream.vol.pageSize)
      requires ExtentSegment(stream.vol.log, s, es) && k <= |es| && CursorAt(stream.vol.log, stream.Pos(), s, k)
      modifies this`currentExtent, this`currentCluster, this`k, stream
      ensures Valid() && Rest() == Clusters(es[old(k)..])
      ensures currentExtent.Some? ==> k == old(k) + 1
    {
      hide ArchiveOk, CursorAt, Grows, Clusters;
      ClustersFrom(es, k);
      var r := stream.GetNext(EXTENT_SIZE, s, k);
      currentCluster := 0;
      if r.None? {
        currentExtent := None;
      } else {
        ItemAt(stream.vol.disk[..], stream.vol.log, stream.vol.pageSize, s, k, r.value);
        currentExtent := Some(stream.vol.disk[r.value.page].cells[r.value.offset].item.extent);
        k := k + 1;
      }
    }

    /** next_cluster_no: the next cluster, or 0 when there is none. */
    method NextClusterNo() returns (clusterNo: nat)
      requires ArchiveOk(stream.vol.disk[..], stream.vol.log, stream.vol.pageSize) && Valid()
      modifies this`currentExtent, this`currentCluster, this`k, stream
      ensures Valid()
      ensures old(Rest()) == [] ==> clusterNo == 0 && Rest() == []
      ensures old(Rest()) != [] ==> clusterNo == old(Rest())[0] && Rest() == old(Rest())[1..]
      decreases |es| - k, currentExtent.Some?
    {
      hide ArchiveOk, CursorAt, Clusters, Run;
      if currentExtent.None? {
        return 0;
      } else if currentCluster >= currentExtent.value.length {
        assert Run(currentExtent.value.physicalStart + currentCluster, 0) + Clusters(es[k..]) == Clusters(es[k..]);
        Fetch();
        clusterNo := NextClusterNo();
        return;
      }
      RunTail(currentExtent.value.physicalStart + currentCluster, currentExtent.value.length - currentCluster,
              Clusters(es[k..]));
      clusterNo := currentExtent.value.physicalStart + currentCluster;
      currentCluster := currentCluster + 1;
    }
  }
}
