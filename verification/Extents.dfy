/** Extents as lists of clusters, and what it means to relocate a list of clusters. */
module Extents {
  import opened Fat
  import opened Allocator
  import opened Disk
  import opened Archive
  import opened Archiver

  ghost function Run(start: nat, length: nat): (r: seq<nat>)
    ensures |r| == length && forall i :: 0 <= i < length ==> r[i] == start + i
  {
    seq(length, i requires 0 <= i => start + i)
  }

  /** The clusters of a list of extents, in file order. */
  ghost function Clusters(es: seq<Extent>): seq<nat> {
    if es == [] then []
    else Clusters(es[..|es| - 1]) + Run(Last(es).physicalStart, Last(es).length)
  }

  /** The extents cover the file clusters from logical on, one after another. */
  ghost predicate Tiled(es: seq<Extent>, logical: nat) {
    es == [] ||
    (var init := es[..|es| - 1];
     && Tiled(init, logical)
     && Last(es).logicalStart == logical + |Clusters(init)|
     && 1 <= Last(es).length <= EXT4_MAX_INIT_EXTENT_LEN)
  }

  lemma ClustersSnoc(es: seq<Extent>, e: Extent)
    ensures Clusters(es + [e]) == Clusters(es) + Run(e.physicalStart, e.length)
  {
    assert (es + [e])[..|es|] == es;
  }

  lemma TiledSnoc(es: seq<Extent>, e: Extent, logical: nat)
    requires Tiled(es, logical) && e.logicalStart == logical + |Clusters(es)|
    requires 1 <= e.length <= EXT4_MAX_INIT_EXTENT_LEN
    ensures Tiled(es + [e], logical)
  {
    assert (es + [e])[..|es|] == es;
  }

  lemma {:induction false} ClustersAppend(a: seq<Extent>, b: seq<Extent>)
    ensures Clusters(a + b) == Clusters(a) + Clusters(b)
  {
    if b == [] {
      assert a + b == a;
    } else {
      var init, tail := b[..|b| - 1], Run(Last(b).physicalStart, Last(b).length);
      ClustersAppend(a, init);
      assert a + b == (a + init) + [Last(b)];
      ClustersSnoc(a + init, Last(b));
      assert (Clusters(a) + Clusters(init)) + tail == Clusters(a) + (Clusters(init) + tail);
    }
  }

  lemma ClustersFrom(es: seq<Extent>, k: nat)
    requires k <= |es|
    ensures k == |es| ==> Clusters(es[k..]) == []
    ensures k < |es| ==> Clusters(es[k..]) == Run(es[k].physicalStart, es[k].length) + Clusters(es[k + 1..])
  {
    if k < |es| {
      assert es[k..] == [es[k]] + es[k + 1..];
      ClustersAppend([es[k]], es[k + 1..]);
      ClustersSnoc([], es[k]);
      assert [] + [es[k]] == [es[k]];
    }
  }

  lemma {:induction false} TiledAppend(a: seq<Extent>, b: seq<Extent>, logical: nat)
    requires Tiled(a, logical) && Tiled(b, logical + |Clusters(a)|)
    ensures Tiled(a + b, logical)
  {
    if b == [] {
      assert a + b == a;
    } else {
      var init := b[..|b| - 1];
      TiledAppend(a, init, logical);
      ClustersAppend(a, init);
      assert a + b == (a + init) + [Last(b)];
      TiledSnoc(a + init, Last(b), logical);
    }
  }

  lemma RunAppend(start: nat, m: nat, n: nat)
    ensures Run(start, m) + Run(start + m, n) == Run(start, m + n)
  {
  }

  lemma RunTail(start: nat, length: nat, rest: seq<nat>)
    requires 0 < length
    ensures var r := Run(start, length) + rest;
            r[0] == start && r[1..] == Run(start + 1, length - 1) + rest
  {
  }

  /** The clusters src of a file have found their final places dst: a cluster in a blocked
      extent has moved to a newly allocated one, every other cluster has stayed, no place is
      blocked, and each place holds what its source holds. Fresh clusters came out of before,
      are no longer in after, and rise along the file. */
  ghost predicate Relocated(blocked: seq<Extent>, payload: map<nat, Cluster>,
                            before: set<nat>, after: set<nat>, src: seq<nat>, dst: seq<nat>)
  {
    && |src| == |dst|
    && (forall i :: 0 <= i < |src| ==>
          && src[i] in payload && dst[i] in payload && payload[dst[i]] == payload[src[i]]
          && !InBlocked(blocked, dst[i])
          && if InBlocked(blocked, src[i]) then dst[i] in before - after else dst[i] == src[i])
    && (forall i, j :: 0 <= i < j < |src| && InBlocked(blocked, src[i]) && InBlocked(blocked, src[j]) ==>
          dst[i] < dst[j])
  }

  lemma RelocatedGrows(blocked: seq<Extent>, payload: map<nat, Cluster>, payload2: map<nat, Cluster>,
                       before: set<nat>, after: set<nat>, after2: set<nat>, src: seq<nat>, dst: seq<nat>)
    requires Relocated(blocked, payload, before, after, src, dst)
    requires Grown(payload, payload2) && after2 <= after
    ensures Relocated(blocked, payload2, before, after2, src, dst)
  {
  }

  lemma RelocatedWiden(blocked: seq<Extent>, payload: map<nat, Cluster>, before: set<nat>, before2: set<nat>,
                       after: set<nat>, src: seq<nat>, dst: seq<nat>)
    requires Relocated(blocked, payload, before, after, src, dst) && before <= before2
    ensures Relocated(blocked, payload, before2, after, src, dst)
  {
  }

  /** Two stretches of a file, relocated one after the other. */
  lemma RelocatedAppend(blocked: seq<Extent>, payload: map<nat, Cluster>,
                        before: set<nat>, middle: set<nat>, after: set<nat>,
                        src1: seq<nat>, dst1: seq<nat>, src2: seq<nat>, dst2: seq<nat>)
    requires Relocated(blocked, payload, before, middle, src1, dst1)
    requires Relocated(blocked, payload, middle, after, src2, dst2)
    requires Consumed(before, middle) && Consumed(middle, after)
    ensures Relocated(blocked, payload, before, after, src1 + src2, dst1 + dst2)
  {
    var src, dst := src1 + src2, dst1 + dst2;
    forall i, j | 0 <= i < j < |src| && InBlocked(blocked, src[i]) && InBlocked(blocked, src[j])
      ensures dst[i] < dst[j]
    {
      if i < |src1| <= j { assert dst[i] in before - middle && dst[j] in middle; }
    }
  }

  /** How many of these clusters have to move. */
  ghost function Moving(blocked: seq<Extent>, src: seq<nat>): nat {
    if src == [] then 0 else Moving(blocked, src[..|src| - 1]) + if InBlocked(blocked, Last(src)) then 1 else 0
  }

  lemma {:induction false} MovingAppend(blocked: seq<Extent>, a: seq<nat>, b: seq<nat>)
    ensures Moving(blocked, a + b) == Moving(blocked, a) + Moving(blocked, b)
  {
    hide InBlocked;
    if b == [] {
      assert a + b == a;
    } else {
      MovingAppend(blocked, a, b[..|b| - 1]);
      assert (a + b)[..|a + b| - 1] == a + b[..|b| - 1];
    }
  }

  lemma {:induction false} MovingRun(blocked: seq<Extent>, start: nat, length: nat)
    requires forall c :: start <= c < start + length ==> InBlocked(blocked, c)
    ensures Moving(blocked, Run(start, length)) == length
  {
    hide InBlocked;
    if length > 0 {
      MovingRun(blocked, start, length - 1);
      assert Run(start, length)[..length - 1] == Run(start, length - 1);
    }
  }

  /** Relocation sends distinct clusters to distinct places. */
  lemma RelocatedInjective(blocked: seq<Extent>, payload: map<nat, Cluster>, before: set<nat>, after: set<nat>,
                           src: seq<nat>, dst: seq<nat>)
    requires Relocated(blocked, payload, before, after, src, dst)
    requires forall i, j :: 0 <= i < j < |src| ==> src[i] != src[j]
    requires forall c :: c in src ==> c !in before
    ensures forall i, j :: 0 <= i < j < |dst| ==> dst[i] != dst[j]
  {
  }
}
