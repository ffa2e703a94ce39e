/** The directory tree of a FAT volume, and when the program reads it as it is. */
module FatTree {
  import opened Aggregator
  import opened Allocator
  import opened Dentry
  import opened Disk
  import opened Fat
  import opened FatReading
  import opened FatRecord
  import opened Tree

  /** The clusters of a file in order: the file allocation table names the next one, or a number from
      0x0FFFFFF8 on for none. Clusters are numbered from 2 on, and an empty file begins with 0. */
  ghost predicate IsFatChain(fat: seq<nat>, clusterCount: nat, first: nat, chain: seq<nat>) {
    && (if chain == [] then first == 0
        else
          && chain[0] == first && chain[|chain| - 1] < |fat| && 0x0FFF_FFF8 <= fat[chain[|chain| - 1]])
    && (forall i :: 0 <= i < |chain| ==> 2 <= chain[i] < clusterCount && chain[i] < |fat| && chain[i] < 0x0FFF_FFF8)
    && (forall i :: 0 <= i < |chain| - 1 ==> fat[chain[i]] == chain[i + 1])
  }

  /** The program follows chains in the same way. */
  lemma ChainRead(fat: seq<nat>, clusterCount: nat, first: nat, chain: seq<nat>)
    ensures IsFatChain(fat, clusterCount, first, chain) <==> IsChain(fat, clusterCount, first, chain)
  {
  }

  /** The directory whose contents are the clusters chain has these files and directories in it,
      all the way down. */
  ghost predicate IsFatTree(fat: seq<nat>, clusterCount: nat, dpc: nat, content: map<nat, Cluster>,
                            chain: seq<nat>, entries: seq<FatEntry>)
    decreases entries
  {
    && DirClusters(content, chain, dpc)
    && var listed := FatEntries(RecordsOf(content, chain));
       && |listed| == |entries|
       && forall i :: 0 <= i < |entries| ==>
            && entries[i].record == listed[i].record && entries[i].name == listed[i].name
            && IsFatTreeEntry(fat, clusterCount, dpc, content, entries[i])
  }

  ghost predicate IsFatTreeEntry(fat: seq<nat>, clusterCount: nat, dpc: nat, content: map<nat, Cluster>, e: FatEntry)
    decreases e
  {
    && FirstCluster(e.record) < |fat|
    && IsFatChain(fat, clusterCount, FirstCluster(e.record), e.place)
    && (forall c :: c in e.place ==> c in content)
    && if IsFolder(e.record) then IsFatTree(fat, clusterCount, dpc, content, e.place, e.children) else e.children == []
  }

  /** In no directory a record that stands alone is stray. */
  ghost predicate NoStrayInTree(content: map<nat, Cluster>, chain: seq<nat>, entries: seq<FatEntry>)
    decreases entries
  {
    && NoStray(RecordsOf(content, chain))
    && forall i :: 0 <= i < |entries| && IsFolder(entries[i].record) ==>
         NoStrayInTree(content, entries[i].place, entries[i].children)
  }

  ghost predicate IsRegularTree(content: map<nat, Cluster>, chain: seq<nat>, entries: seq<FatEntry>)
    decreases entries
  {
    && IsRegular(RecordsOf(content, chain))
    && forall i :: 0 <= i < |entries| && IsFolder(entries[i].record) ==>
         IsRegularTree(content, entries[i].place, entries[i].children)
  }

  /** The file allocation table leaves no choice of a chain. */
  lemma ChainUnique(fat: seq<nat>, clusterCount: nat, first: nat, a: seq<nat>, b: seq<nat>)
    requires IsChain(fat, clusterCount, first, a) && IsChain(fat, clusterCount, first, b)
    ensures a == b
  {
    if |a| <= |b| { ChainPrefix(fat, clusterCount, first, a, b); } else { ChainPrefix(fat, clusterCount, first, b, a); }
  }

  lemma ChainPrefix(fat: seq<nat>, clusterCount: nat, first: nat, a: seq<nat>, b: seq<nat>)
    requires IsChain(fat, clusterCount, first, a) && IsChain(fat, clusterCount, first, b) && |a| <= |b|
    ensures a == b
  {
    if a != [] {
      SameLink(fat, clusterCount, first, a, b, |a| - 1);
      forall i | 0 <= i < |a| ensures a[i] == b[i] { SameLink(fat, clusterCount, first, a, b, i); }
    }
  }

  lemma {:induction false} SameLink(fat: seq<nat>, clusterCount: nat, first: nat, a: seq<nat>, b: seq<nat>, i: nat)
    requires IsChain(fat, clusterCount, first, a) && IsChain(fat, clusterCount, first, b) && i < |a| && i < |b|
    ensures a[i] == b[i] && (i == |a| - 1 <==> i == |b| - 1)
  {
    hide IsChain;
    NextInChain(fat, clusterCount, first, a, i);
    NextInChain(fat, clusterCount, first, b, i);
    if i > 0 {
      SameLink(fat, clusterCount, first, a, b, i - 1);
      NextInChain(fat, clusterCount, first, a, i - 1);
      NextInChain(fat, clusterCount, first, b, i - 1);
    }
  }

  /** The program's reading leaves no choice of a tree either. */
  lemma {:induction false} ReadTreeUnique(fat: seq<nat>, clusterCount: nat, dpc: nat, content: map<nat, Cluster>,
                                          chain: seq<nat>, a: seq<FatEntry>, b: seq<FatEntry>)
    requires Represents(fat, clusterCount, dpc, content, chain, a)
    requires Represents(fat, clusterCount, dpc, content, chain, b)
    ensures a == b
    decreases a
  {
    hide Parse, Live, RecordsOf, DirClusters, IsChain;
    forall i | 0 <= i < |a| ensures a[i] == b[i] {
      assert RepresentsEntry(fat, clusterCount, dpc, content, a[i]);
      assert RepresentsEntry(fat, clusterCount, dpc, content, b[i]);
      ChainUnique(fat, clusterCount, ClusterNo(a[i].record), a[i].place, b[i].place);
      if IsDir(a[i].record) {
        ReadTreeUnique(fat, clusterCount, dpc, content, a[i].place, a[i].children, b[i].children);
      }
    }
  }

  /** With nothing stray in it the program reads exactly the tree of the volume. */
  lemma {:induction false} TreeReadRight(fat: seq<nat>, clusterCount: nat, dpc: nat, content: map<nat, Cluster>,
                                         chain: seq<nat>, entries: seq<FatEntry>)
    requires IsFatTree(fat, clusterCount, dpc, content, chain, entries) && NoStrayInTree(content, chain, entries)
    ensures Represents(fat, clusterCount, dpc, content, chain, entries)
    decreases entries
  {
    hide Parse, Live, RecordsOf, DirClusters, IsChain, IsFatChain, FatEntries, NoStray, ClusterNo, FirstCluster;
    ReadRight(RecordsOf(content, chain));
    forall i | 0 <= i < |entries| ensures RepresentsEntry(fat, clusterCount, dpc, content, entries[i]) {
      assert IsFatTreeEntry(fat, clusterCount, dpc, content, entries[i]);
      NumbersRead(entries[i].record);
      KindsRead(entries[i].record);
      ChainRead(fat, clusterCount, FirstCluster(entries[i].record), entries[i].place);
      if IsDir(entries[i].record) {
        TreeReadRight(fat, clusterCount, dpc, content, entries[i].place, entries[i].children);
      }
    }
  }

  lemma {:induction false} TreeReadWrong(fat: seq<nat>, clusterCount: nat, dpc: nat, content: map<nat, Cluster>,
                                         chain: seq<nat>, entries: seq<FatEntry>)
    requires IsFatTree(fat, clusterCount, dpc, content, chain, entries) && IsRegularTree(content, chain, entries)
    requires Represents(fat, clusterCount, dpc, content, chain, entries)
    ensures NoStrayInTree(content, chain, entries)
    decreases entries
  {
    hide Parse, Live, RecordsOf, DirClusters, IsChain, IsFatChain, FatEntries, NoStray, IsRegular;
    var records := RecordsOf(content, chain);
    var read, listed := Parse(Live(records)).entries, FatEntries(records);
    forall i | 0 <= i < |entries| ensures read[i] == listed[i] {
      assert read[i].record == entries[i].record && listed[i].record == entries[i].record;
    }
    assert read == listed;
    ReadRightIffNoStray(records);
    forall i | 0 <= i < |entries| && IsFolder(entries[i].record)
      ensures NoStrayInTree(content, entries[i].place, entries[i].children)
    {
      assert IsFatTreeEntry(fat, clusterCount, dpc, content, entries[i]);
      assert RepresentsEntry(fat, clusterCount, dpc, content, entries[i]);
      TreeReadWrong(fat, clusterCount, dpc, content, entries[i].place, entries[i].children);
    }
  }

  /** The tree children that the program reads is the tree entries of a regular volume if and only
      if there is nothing stray in it. */
  lemma TreeReadRightIffNoStray(fat: seq<nat>, clusterCount: nat, dpc: nat, content: map<nat, Cluster>,
                                chain: seq<nat>, entries: seq<FatEntry>, children: seq<FatEntry>)
    requires IsFatTree(fat, clusterCount, dpc, content, chain, entries)
    requires Represents(fat, clusterCount, dpc, content, chain, children)
    ensures NoStrayInTree(content, chain, entries) ==> children == entries
    ensures IsRegularTree(content, chain, entries) && children == entries ==> NoStrayInTree(content, chain, entries)
  {
    hide IsFatTree, Represents, NoStrayInTree, IsRegularTree;
    if NoStrayInTree(content, chain, entries) {
      TreeReadRight(fat, clusterCount, dpc, content, chain, entries);
      ReadTreeUnique(fat, clusterCount, dpc, content, chain, children, entries);
    } else if IsRegularTree(content, chain, entries) && children == entries {
      TreeReadWrong(fat, clusterCount, dpc, content, chain, entries);
    }
  }
}
