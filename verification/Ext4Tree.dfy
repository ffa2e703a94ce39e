/** What a finished ext4 directory tree is: what readers of its inodes and blocks find. */
module Ext4Tree {
  import opened Allocator
  import opened Archive
  import opened Archiver
  import opened Dentry
  import opened DirBlocks
  import opened Disk
  import opened Ext4
  import opened ExtentTree
  import opened Extents
  import opened Fat
  import opened FatRecord
  import opened Geometry
  import opened Names
  import opened Tree
  import opened Util

  // --- Reading -------------------------------------------------------------------------

  ghost function EntriesOf(cluster: Cluster): map<nat, DirRecord> {
    if cluster.DirBlock? then cluster.entries else map[]
  }

  /** The entries a reader finds in the blocks of a directory. */
  ghost function ReadDir(content: map<nat, Cluster>, blockSize: nat, blocks: seq<nat>): Option<seq<Listed>> {
    if blocks == [] then Some([])
    else
      var first := ReadDir(content, blockSize, blocks[..|blocks| - 1]);
      if first.None? || Last(blocks) !in content then None
      else
        var last := Walk(EntriesOf(content[Last(blocks)]), blockSize, 0);
        if last.None? then None else Some(first.value + last.value)
  }

  lemma ReadDirSnoc(content: map<nat, Cluster>, blockSize: nat, blocks: seq<nat>, block: nat)
    requires block in content
    ensures var first, last := ReadDir(content, blockSize, blocks), Walk(EntriesOf(content[block]), blockSize, 0);
            ReadDir(content, blockSize, blocks + [block])
            == if first.Some? && last.Some? then Some(first.value + last.value) else None
  {
    assert (blocks + [block])[..|blocks|] == blocks;
  }

  lemma {:induction false} ReadDirStable(content: map<nat, Cluster>, content2: map<nat, Cluster>, blockSize: nat,
                                         blocks: seq<nat>)
    requires ReadDir(content, blockSize, blocks).Some?
    requires forall c :: c in blocks && c in content ==> c in content2 && content2[c] == content[c]
    ensures ReadDir(content2, blockSize, blocks) == ReadDir(content, blockSize, blocks)
    ensures forall c :: c in blocks ==> c in content
  {
    if blocks != [] {
      ReadDirStable(content, content2, blockSize, blocks[..|blocks| - 1]);
      assert Last(blocks) in blocks;
      forall c | c in blocks ensures c in content {
        assert c in blocks[..|blocks| - 1] || c == Last(blocks);
      }
    }
  }

  ghost function SetOf(s: seq<nat>): set<nat> { set c | c in s }

  ghost predicate InDataArea(clusters: seq<nat>) {
    forall i :: 0 <= i < |clusters| ==> FAT_START_INDEX <= clusters[i]
  }

  /** The extents of a directory: one for each block. */
  ghost function UnitExts(g: Geo, blocks: seq<nat>): (exts: seq<Ext4Extent>)
    requires InDataArea(blocks)
    ensures |exts| == |blocks|
    ensures forall i :: 0 <= i < |blocks| ==> exts[i] == ToExt4Extent(g, Extent(i, 1, blocks[i]))
  {
    seq(|blocks|, i requires 0 <= i < |blocks| => ToExt4Extent(g, Extent(i, 1, blocks[i])))
  }

  /** The inode is a directory with these blocks, in which a reader finds these entries; they and
      the block of its tree are the clusters it owns. */
  ghost predicate DirectoryIn(g: Geo, content: map<nat, Cluster>, owned: set<nat>, inode: Inode,
                              items: seq<Listed>, links: nat, blocks: seq<nat>)
    requires g.Valid()
  {
    && inode.isDir && inode.links == links % U16 && InDataArea(blocks)
    && Leaves(g, content, inode.root) == Some(UnitExts(g, blocks))
    && CountsBlocks(g, inode.blocks, UnitExts(g, blocks))
    && inode.size == SetLoHi32(|blocks| * g.blockSize)
    && ReadDir(content, g.blockSize, blocks) == Some(items)
    && owned == SetOf(blocks) + NodeClusters(g, inode.root)
  }

  ghost predicate IsDirectory(g: Geo, content: map<nat, Cluster>, owned: set<nat>, inode: Inode,
                              items: seq<Listed>, links: nat)
    requires g.Valid()
  {
    exists blocks :: DirectoryIn(g, content, owned, inode, items, links, blocks)
  }

  ghost predicate Storable(place: seq<Extent>) {
    forall e :: e in place ==> FAT_START_INDEX <= e.physicalStart && 1 <= e.length <= EXT4_MAX_INIT_EXTENT_LEN
  }

  ghost function ToExt4s(g: Geo, place: seq<Extent>): (exts: seq<Ext4Extent>)
    requires Storable(place)
    ensures |exts| == |place| && forall i :: 0 <= i < |place| ==> exts[i] == ToExt4Extent(g, place[i])
  {
    seq(|place|, i requires 0 <= i < |place| => ToExt4Extent(g, place[i]))
  }

  /** The inode is a file of this size whose extents are exactly these; their clusters and the
      block of its tree are those it owns. */
  ghost predicate IsFile(g: Geo, content: map<nat, Cluster>, owned: set<nat>, inode: Inode, record: Record,
                         place: seq<Extent>)
    requires g.Valid()
  {
    && !inode.isDir && inode.links == 1 && Storable(place)
    && inode.size == Halves(Length(record), 0)
    && Leaves(g, content, inode.root) == Some(ToExt4s(g, place))
    && CountsBlocks(g, inode.blocks, ToExt4s(g, place))
    && owned == SetOf(Clusters(place)) + NodeClusters(g, inode.root)
  }

  // --- The whole tree ------------------------------------------------------------------

  /** The number of files and directories in a forest. */
  ghost function EntryCount<T>(es: seq<Entry<T>>): nat {
    if es == [] then 0 else EntryCount(es[..|es| - 1]) + 1 + EntryCount(Last(es).children)
  }

  ghost function SubdirCount(es: seq<MovedEntry>): nat {
    if es == [] then 0 else SubdirCount(es[..|es| - 1]) + if IsDir(Last(es).record) then 1 else 0
  }

  /** Inode numbers are given out in preorder. */
  ghost function NumberOf(first: nat, es: seq<MovedEntry>, i: nat): nat
    requires i <= |es|
  {
    first + EntryCount(es[..i])
  }

  lemma NumberStep(first: nat, es: seq<MovedEntry>, i: nat)
    requires i < |es|
    ensures NumberOf(first, es, i + 1) == NumberOf(first, es, i) + 1 + EntryCount(es[i].children)
    ensures SubdirCount(es[..i + 1]) == SubdirCount(es[..i]) + if IsDir(es[i].record) then 1 else 0
  {
    assert es[..i + 1][..i] == es[..i];
  }

  /** The inode numbers of a forest in preorder. */
  ghost function Numbers(first: nat, es: seq<MovedEntry>): seq<nat>
    decreases es
  {
    if es == [] then []
    else
      var no := NumberOf(first, es, |es| - 1);
      Numbers(first, es[..|es| - 1]) + [no] + Numbers(no + 1, Last(es).children)
  }

  /** They are consecutive, so no two files or directories share one. */
  lemma {:induction false} NumbersAreConsecutive(first: nat, es: seq<MovedEntry>)
    ensures Numbers(first, es) == Run(first, EntryCount(es))
    decreases es
  {
    hide Run;
    if es == [] {
      RunOf(first);
    } else {
      var init, e := es[..|es| - 1], Last(es);
      var no := first + EntryCount(init);
      NumbersAreConsecutive(first, init);
      NumbersAreConsecutive(no + 1, e.children);
      RunParts(first, EntryCount(init), EntryCount(e.children));
    }
  }

  lemma RunParts(first: nat, m: nat, n: nat)
    ensures Run(first, m) + [first + m] + Run(first + m + 1, n) == Run(first, m + 1 + n)
  {
    hide Run;
    RunOf(first + m);
    RunAppend(first, m, 1);
    RunAppend(first, m + 1, n);
  }

  lemma RunOf(start: nat)
    ensures Run(start, 0) == [] && Run(start, 1) == [start]
  {
  }

  const DOT_NAME: seq<Byte> := [0x2E]
  const DOT_DOT_NAME: seq<Byte> := [0x2E, 0x2E]

  ghost function Dots(no: nat, parent: nat): seq<Listed> {
    [Listed(no, DOT_NAME), Listed(parent, DOT_DOT_NAME)]
  }

  /** What the directory no lists when the first n of its children have been entered. */
  ghost function ListingOf(no: nat, parent: nat, first: nat, es: seq<MovedEntry>, n: nat): (items: seq<Listed>)
    requires n <= |es|
  {
    Dots(no, parent) + seq(n, i requires 0 <= i < n => Listed(NumberOf(first, es, i), EncodeName(es[i].name)))
  }

  lemma ListingSnoc(no: nat, parent: nat, first: nat, es: seq<MovedEntry>, n: nat)
    requires n < |es|
    ensures ListingOf(no, parent, first, es, n + 1)
            == ListingOf(no, parent, first, es, n) + [Listed(NumberOf(first, es, n), EncodeName(es[n].name))]
  {
  }

  // --- What an extent tree has room for ------------------------------------------------

  /** The names a directory lists when n of its children have been entered. */
  ghost function DirNames(es: seq<MovedEntry>, n: nat): seq<seq<Byte>>
    requires n <= |es|
  {
    [DOT_NAME, DOT_DOT_NAME] + seq(n, i requires 0 <= i < n => EncodeName(es[i].name))
  }

  lemma DirNamesSnoc(es: seq<MovedEntry>, n: nat)
    requires n < |es|
    ensures DirNames(es, n + 1) == DirNames(es, n) + [EncodeName(es[n].name)]
    ensures DirNames(es, |es|)[..n + 2] == DirNames(es, n)
  {
  }

  /** The blocks that a directory with these children takes. */
  ghost function DirBlockCount(g: Geo, es: seq<MovedEntry>): nat {
    Layout(g.blockSize, DirNames(es, |es|)).blocks
  }

  /** The extents of a file fit in one block; so do those of a directory, which has one for each
      of its blocks, and of everything below it. */
  ghost predicate EntryFits(g: Geo, e: MovedEntry)
    requires g.Valid()
    decreases e, 1
  {
    if IsDir(e.record) then DirFits(g, e.children, 0) else |e.place| <= MaxEntries(g)
  }

  /** more blocks will be added to the directory itself. */
  ghost predicate DirFits(g: Geo, es: seq<MovedEntry>, more: nat)
    requires g.Valid()
    decreases es, 0
  {
    DirBlockCount(g, es) + more <= MaxEntries(g) && forall i :: 0 <= i < |es| ==> EntryFits(g, es[i])
  }

  /** The entry e has become inode no: a file with its extents, or a directory that lists its
      children, which have become inodes in turn. */
  ghost predicate EntryBuilt(g: Geo, s: State, no: nat, parent: nat, e: MovedEntry)
    requires g.Valid()
    decreases e, 1
  {
    && no in s.sealed
    && if IsDir(e.record)
       then
         && IsDirectory(g, s.final, Owned(s, no), s.sealed[no],
                        ListingOf(no, parent, no + 1, e.children, |e.children|), 2 + SubdirCount(e.children))
         && TreeBuilt(g, s, no + 1, no, e.children, |e.children|)
       else IsFile(g, s.final, Owned(s, no), s.sealed[no], e.record, e.place)
  }

  /** The first n entries of a directory, which take the inode numbers from first on. */
  ghost predicate TreeBuilt(g: Geo, s: State, first: nat, parent: nat, es: seq<MovedEntry>, n: nat)
    requires g.Valid() && n <= |es|
    decreases es, 0
  {
    forall i :: 0 <= i < n ==> EntryBuilt(g, s, NumberOf(first, es, i), parent, es[i])
  }

  /** Nothing that is finished is lost later, or gains clusters. */
  ghost predicate Keeps(s: State, t: State) {
    && Grown(s.final, t.final) && Grown(s.sealed, t.sealed) && s.registered <= t.registered
    && Grown(s.owner, t.owner)
    && forall c {:trigger c in t.owner} :: c in t.owner && c !in s.owner ==> t.owner[c] !in s.sealed
  }

  lemma KeepsTransitive(a: State, b: State, c: State)
    requires Keeps(a, b) && Keeps(b, c)
    ensures Keeps(a, c)
  {
  }

  lemma KeepsSame(a: State, b: State, c: State)
    requires Keeps(a, b) && c.final == b.final && c.sealed == b.sealed && c.registered == b.registered
    requires c.owner == b.owner
    ensures Keeps(a, c)
  {
  }

  lemma KeepsReflexive(a: State, c: State)
    requires c.final == a.final && c.sealed == a.sealed && c.registered == a.registered && c.owner == a.owner
    ensures Keeps(a, c)
  {
  }

  lemma BetweenKeeps(s: State, t: State, own: set<nat>, mine: set<nat>)
    requires Between(s, t, own, mine)
    ensures Keeps(s, t) && t.log == s.log && s.nextInode <= t.nextInode
  {
  }

  /** A sealed inode owns the same clusters later. */
  lemma OwnedStable(s: State, t: State, no: nat)
    requires Keeps(s, t) && no in s.sealed
    ensures Owned(t, no) == Owned(s, no)
  {
  }

  lemma DirectoryStable(g: Geo, content: map<nat, Cluster>, content2: map<nat, Cluster>, owned: set<nat>,
                        inode: Inode, items: seq<Listed>, links: nat, blocks: seq<nat>)
    requires g.Valid() && DirectoryIn(g, content, owned, inode, items, links, blocks)
    requires Grown(content, content2)
    ensures DirectoryIn(g, content2, owned, inode, items, links, blocks)
  {
    hide Geo.GroupsHoldMetadata, Leaves, CountsBlocks, SetLoHi32, NodeClusters;
    LeavesStable(g, content, content2, inode.root);
    ReadDirStable(content, content2, g.blockSize, blocks);
  }

  lemma FileStable(g: Geo, content: map<nat, Cluster>, content2: map<nat, Cluster>, owned: set<nat>,
                   inode: Inode, record: Record, place: seq<Extent>)
    requires g.Valid() && IsFile(g, content, owned, inode, record, place)
    requires Grown(content, content2)
    ensures IsFile(g, content2, owned, inode, record, place)
  {
    hide Geo.GroupsHoldMetadata, Leaves, CountsBlocks, Clusters, Length, Storable, NodeClusters;
    LeavesStable(g, content, content2, inode.root);
  }

  lemma {:induction false} EntryStable(g: Geo, s: State, t: State, no: nat, parent: nat, e: MovedEntry)
    requires g.Valid() && EntryBuilt(g, s, no, parent, e) && Keeps(s, t)
    ensures EntryBuilt(g, t, no, parent, e)
    decreases e, 1
  {
    hide Geo.GroupsHoldMetadata, DirectoryIn, IsFile, ListingOf, TreeBuilt, Owned;
    OwnedStable(s, t, no);
    if IsDir(e.record) {
      var items, links := ListingOf(no, parent, no + 1, e.children, |e.children|), 2 + SubdirCount(e.children);
      var blocks :| DirectoryIn(g, s.final, Owned(s, no), s.sealed[no], items, links, blocks);
      DirectoryStable(g, s.final, t.final, Owned(s, no), s.sealed[no], items, links, blocks);
      TreeStable(g, s, t, no + 1, no, e.children, |e.children|);
    } else {
      FileStable(g, s.final, t.final, Owned(s, no), s.sealed[no], e.record, e.place);
    }
  }

  /** What phase one promises of the forest it has written: extents tile their contents, and
      files have no children. */
  ghost predicate Tidy(es: seq<MovedEntry>) {
    forall i :: 0 <= i < |es| ==>
      Tiled(es[i].place, 0) && (!IsDir(es[i].record) ==> es[i].children == []) && Tidy(es[i].children)
  }

  /** Every number that the forest takes is that of a sealed inode. */
  lemma {:induction false} TreeIsSealed(g: Geo, s: State, first: nat, parent: nat, es: seq<MovedEntry>, n: nat)
    requires g.Valid() && n <= |es| && TreeBuilt(g, s, first, parent, es, n) && Tidy(es)
    ensures forall k :: first <= k < NumberOf(first, es, n) ==> k in s.sealed
    decreases es, n, 0
  {
    hide EntryBuilt, EntryCount, Geo.GroupsHoldMetadata, Tiled;
    if n == 0 {
      NothingCounted(es);
    } else {
      TreeIsSealed(g, s, first, parent, es, n - 1);
      NumberStep(first, es, n - 1);
      EntryIsSealed(g, s, NumberOf(first, es, n - 1), parent, es[n - 1]);
    }
  }

  lemma {:induction false} EntryIsSealed(g: Geo, s: State, no: nat, parent: nat, e: MovedEntry)
    requires g.Valid() && EntryBuilt(g, s, no, parent, e) && Tidy(e.children) && (!IsDir(e.record) ==> e.children == [])
    ensures forall k :: no <= k <= no + EntryCount(e.children) ==> k in s.sealed
    decreases e, 1
  {
    hide IsFile, IsDirectory, ListingOf, Geo.GroupsHoldMetadata, EntryCount, Tidy;
    NothingCounted(e.children);
    if IsDir(e.record) {
      TreeIsSealed(g, s, no + 1, no, e.children, |e.children|);
      assert e.children[..|e.children|] == e.children;
    }
  }

  lemma NothingCounted(es: seq<MovedEntry>)
    ensures EntryCount(es[..0]) == 0 && (es == [] ==> EntryCount(es) == 0)
  {
  }

  lemma {:induction false} TreeStable(g: Geo, s: State, t: State, first: nat, parent: nat, es: seq<MovedEntry>, n: nat)
    requires g.Valid() && n <= |es| && TreeBuilt(g, s, first, parent, es, n) && Keeps(s, t)
    ensures TreeBuilt(g, t, first, parent, es, n)
    decreases es, 0
  {
    hide EntryBuilt, Keeps, EntryCount;
    forall i | 0 <= i < n ensures EntryBuilt(g, t, NumberOf(first, es, i), parent, es[i]) {
      EntryStable(g, s, t, NumberOf(first, es, i), parent, es[i]);
    }
  }
}
