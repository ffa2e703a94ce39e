/** The ext4 side of the conversion: inodes, their extents and the blocks they register
    (ext4_extent.cpp, ext4_inode.cpp, ext4_bg.cpp). */
module Ext4 {
  import opened Fat
  import opened Allocator
  import opened Archive
  import opened Archiver
  import opened BlockGroups
  import opened Disk
  import opened Extents
  import opened ExtentTree
  import opened Geometry
  import opened Util

  const EXT4_ROOT_INODE: nat := 2
  const EXT4_LOST_FOUND_INODE: nat := 11

  /** The part of ext4_inode that describes contents. */
  datatype Inode = Inode(isDir: bool, links: nat, size: Halves, blocks: Halves, root: Node)

  /** How a phase of the conversion ends. The program exits when the disk is full or the
      inodes are used up; an extent tree that overflows goes unnoticed there, but what the
      program does next depends on stray memory. */
  datatype Outcome = Done | DiskFull | OutOfInodes | TreeOverflow

  /** What is compared across steps. final holds the clusters that have found their final
      contents, sealed the inodes that are complete, owner the inode that each registered cluster
      belongs to. */
  datatype State = State(log: Log, remaining: set<nat>, payload: map<nat, Cluster>, registered: set<nat>,
                         final: map<nat, Cluster>, inodes: map<nat, Inode>, sealed: map<nat, Inode>, nextInode: nat,
                         owner: map<nat, nat>)

  /** The clusters of an inode: those of its contents and of its extent tree. */
  ghost function Owned(s: State, no: nat): set<nat> { set c | c in s.owner && s.owner[c] == no }

  ghost function Assigned(owner: map<nat, nat>, clusters: set<nat>, no: nat): map<nat, nat> {
    map c | c in owner.Keys + clusters :: if c in clusters then no else owner[c]
  }

  lemma AssignedFacts(owner: map<nat, nat>, clusters: set<nat>, no: nat)
    requires forall c :: c in clusters ==> c !in owner
    ensures var owner' := Assigned(owner, clusters, no);
            && Grown(owner, owner') && owner'.Keys == owner.Keys + clusters
            && forall c {:trigger c in owner'} :: c in owner' && c !in owner ==> c in clusters && owner'[c] == no
  {
  }

  /** The state after these clusters have been registered for the inode no. */
  ghost function Registered(s: State, clusters: set<nat>, no: nat): State {
    s.(registered := s.registered + clusters, owner := Assigned(s.owner, clusters, no))
  }

  /** Between two moments only the inode no has gained clusters. */
  ghost predicate OnlyGains(a: State, b: State, no: nat) {
    Grown(a.owner, b.owner) && forall c {:trigger c in b.owner} :: c in b.owner && c !in a.owner ==> b.owner[c] == no
  }

  /** Between two moments only clusters in own and newly allocated ones have been written,
      registered or made final, and only inodes in mine and new ones have changed. */
  ghost predicate Between(a: State, b: State, own: set<nat>, mine: set<nat>) {
    && b.log == a.log && Consumed(a.remaining, b.remaining) && a.nextInode <= b.nextInode
    && (forall c {:trigger c in b.payload} {:trigger b.payload[c]} :: c in a.payload ==>
          c in b.payload && (c !in own ==> b.payload[c] == a.payload[c]))
    && (forall c {:trigger c in b.payload} :: c in b.payload && c !in a.payload ==> c in a.remaining)
    && Grown(a.final, b.final)
    && (forall c {:trigger c in b.final} :: c in b.final && c !in a.final ==> c in own || c !in a.payload)
    && a.registered <= b.registered
    && (forall c {:trigger c in b.registered} ::
          c in b.registered && c !in a.registered ==> c in own || c !in a.payload)
    && Grown(a.owner, b.owner)
    && (forall c {:trigger c in b.owner} :: c in b.owner && c !in a.owner ==>
          b.owner[c] !in a.sealed && (b.owner[c] in mine || b.owner[c] !in a.inodes))
    && (forall k {:trigger k in b.inodes} {:trigger b.inodes[k]} :: k in a.inodes ==>
          k in b.inodes && (k !in mine ==> b.inodes[k] == a.inodes[k]))
    && (forall k {:trigger k in b.inodes} :: k in b.inodes && k !in a.inodes ==> a.nextInode <= k)
    && Grown(a.sealed, b.sealed)
    && (forall k {:trigger k in b.sealed} :: k in b.sealed && k !in a.sealed ==> k in mine || k !in a.inodes)
  }

  lemma BetweenTransitive(a: State, b: State, c: State, own: set<nat>, mine: set<nat>, own2: set<nat>, mine2: set<nat>)
    requires Between(a, b, own, mine) && Between(b, c, own2, mine2)
    requires forall x :: x in own2 ==> x in own || x !in a.payload
    requires forall k :: k in mine2 ==> k in mine || k !in a.inodes
    ensures Between(a, c, own, mine)
  {
    ConsumedTransitive(a.remaining, b.remaining, c.remaining);
  }

  /** Between two moments no more clusters have been taken than this many, and four for each new
      inode. */
  ghost predicate Frugal(a: State, b: State, clusters: int) {
    a.nextInode <= b.nextInode && |a.remaining| <= |b.remaining| + clusters + 4 * (b.nextInode - a.nextInode)
  }

  lemma LaterSpends(a: Moment, b: Moment)
    requires Later(a, b)
    ensures Grown(a.payload, b.payload) && Consumed(a.remaining, b.remaining)
  {
  }

  lemma NothingIsFrugal(s: State, t: State)
    requires s.remaining == {} && t.nextInode == s.nextInode
    ensures Frugal(s, t, 1)
  {
  }

  lemma OneIsFrugal(s: State, t: State, c: nat)
    requires t.remaining == s.remaining - {c} && t.nextInode == s.nextInode
    ensures Frugal(s, t, 1)
  {
    if c !in s.remaining { assert t.remaining == s.remaining; }
  }

  /** The blocks of a set of clusters. */
  ghost function BlocksOf(g: Geo, clusters: set<nat>): set<nat>
    requires forall c :: c in clusters ==> FAT_START_INDEX <= c
  {
    set c | c in clusters :: g.FatClToE4Blk(c)
  }

  /** The books agree: what is marked in the block bitmaps is what has been registered, the inode
      bitmaps and the directory counts show the inodes there are, and final contents and sealed
      inodes have not changed since. */
  ghost predicate Balanced(g: Geo, books: Books, s: State) {
    && (forall c :: c in s.registered ==> c in s.payload && FAT_START_INDEX <= c)
    && books.marked == BlocksOf(g, s.registered)
    && s.owner.Keys == s.registered && (forall c :: c in s.owner ==> s.owner[c] in s.inodes)
    && Grown(s.final, s.payload) && Grown(s.sealed, s.inodes)
    && (forall k :: k in s.inodes ==> 0 < k < s.nextInode)
    && EXT4_FIRST_NON_RSV_INODE < s.nextInode
    && books.taken == Span(EXT4_FIRST_NON_RSV_INODE + 1, s.nextInode - (EXT4_FIRST_NON_RSV_INODE + 1))
    && (forall k {:trigger k in s.inodes} :: EXT4_FIRST_NON_RSV_INODE < k < s.nextInode ==> k in s.inodes)
    && books.dirs == Dirs(s.inodes)
  }

  /** The inodes that are directories. */
  ghost function Dirs(inodes: map<nat, Inode>): set<nat> { set k | k in inodes && inodes[k].isDir }

  /** The clusters of an extent may be registered: they hold payload, lie in the data area
      outside the block group headers, and have not been registered. */
  ghost predicate Placeable(g: Geo, blocked: seq<Extent>, s: State, e: Extent) {
    && FAT_START_INDEX <= e.physicalStart && 1 <= e.length <= EXT4_MAX_INIT_EXTENT_LEN
    && forall c {:trigger c in s.registered} {:trigger InBlocked(blocked, c)} :: e.physicalStart <= c < e.End() ==>
         c in s.payload && c !in s.registered && !InBlocked(blocked, c)
  }

  /** All sectors of an inode: those of its extents and of the block of its tree. */
  ghost function TotalLength(exts: seq<Ext4Extent>): nat {
    if exts == [] then 0 else TotalLength(exts[..|exts| - 1]) + Last(exts).len
  }

  function Sectors(g: Geo, blocks: nat): nat { blocks * g.blockSize / 512 }

  ghost predicate CountsBlocks(g: Geo, blocks: Halves, exts: seq<Ext4Extent>) {
    && TotalLength(exts) <= |exts| * EXT4_MAX_INIT_EXTENT_LEN
    && FromLoHi32(blocks) == Sectors(g, TotalLength(exts) + if |exts| > INODE_ENTRIES then 1 else 0)
  }

  /** The inode's tree holds exactly these extents, i_blocks counts them and the tree's own
      block, and that block is not yet final. */
  ghost predicate Describes(g: Geo, s: State, inode: Inode, exts: seq<Ext4Extent>)
    requires EXTENT_HEADER_SIZE <= g.blockSize
  {
    && TreeHolds(g, s.payload, inode.root, exts)
    && CountsBlocks(g, inode.blocks, exts)
    && forall c :: c in NodeClusters(g, inode.root) ==> c !in s.final && c in s.registered
  }

  /** The clusters of an extent take its blocks, and no block twice. */
  lemma RegisteredBlocks(g: Geo, registered: set<nat>, start: nat, length: nat)
    requires FAT_START_INDEX <= start && forall c :: c in registered ==> FAT_START_INDEX <= c
    ensures forall c :: c in Span(start, length) ==> FAT_START_INDEX <= c
    ensures BlocksOf(g, registered + Span(start, length))
            == BlocksOf(g, registered) + Span(g.FatClToE4Blk(start), length)
    ensures registered !! Span(start, length) ==> BlocksOf(g, registered) !! Span(g.FatClToE4Blk(start), length)
  {
    var all, blocks := registered + Span(start, length), Span(g.FatClToE4Blk(start), length);
    forall b: nat
      ensures b in BlocksOf(g, all) <==> b in BlocksOf(g, registered) || b in blocks
    {
      if b in blocks {
        var c := b - g.firstDataClusterBlock + FAT_START_INDEX;
        assert c in Span(start, length) && g.FatClToE4Blk(c) == b;
      }
    }
  }

  /** What register_extent relies on. */
  lemma PlaceableFacts(g: Geo, blocked: seq<Extent>, books: Books, s: State, e: Extent, no: nat)
    requires no in s.inodes && g.Valid() && MetaExtents(g, blocked) && Placeable(g, blocked, s, e)
    requires Balanced(g, books, s)
    requires forall c :: c in s.payload ==> c < g.DataClusterCount()
    ensures var begin := g.FatClToE4Blk(e.physicalStart);
            && FromLoHi32(ToExt4Extent(g, e).start) == begin
            && InsideOneGroup(g, begin, begin + e.length) && Span(begin, e.length) !! books.marked
            && Balanced(g, books.(marked := books.marked + Span(begin, e.length)),
                        Registered(s, Span(e.physicalStart, e.length), no))
  {
    hide Geo.GroupsHoldMetadata, MetaExtents, InBlocked, InsideOneGroup, FromLoHi32, SetLoHi48;
    assert e.physicalStart !in s.registered && e.End() - 1 !in s.registered;
    NoExtentCrossesGroups(g, blocked, e);
    AddressStored(g, e.physicalStart);
    RegisteredBlocks(g, s.registered, e.physicalStart, e.length);
  }

  lemma StartInRange(g: Geo, blocked: seq<Extent>, s: State, e: Extent)
    requires Placeable(g, blocked, s, e)
    ensures FAT_START_INDEX <= e.physicalStart && 1 <= e.length <= EXT4_MAX_INIT_EXTENT_LEN
  {
  }

  lemma BalancedInode(g: Geo, books: Books, s: State, no: nat, inode: Inode)
    requires Balanced(g, books, s) && no in s.inodes && no !in s.sealed && inode.isDir == s.inodes[no].isDir
    ensures Balanced(g, books, s.(inodes := s.inodes[no := inode]))
  {
    hide BlocksOf, Span;
  }

  /** Where a node of an extent tree lives. */
  datatype NodeRef = InInode(no: nat) | InBlock(cluster: nat)

  /** There is a node, and it may be written. */
  ghost predicate HasNode(s: State, ref: NodeRef) {
    match ref
    case InInode(no) => no in s.inodes && no !in s.sealed
    case InBlock(c) => c in s.payload && s.payload[c].TreeNode? && c !in s.final
  }

  ghost function NodeOf(s: State, ref: NodeRef): Node
    requires HasNode(s, ref)
  {
    match ref
    case InInode(no) => s.inodes[no].root
    case InBlock(c) => s.payload[c].node
  }

  ghost function WithNode(s: State, ref: NodeRef, node: Node): State
    requires HasNode(s, ref)
  {
    match ref
    case InInode(no) => s.(inodes := s.inodes[no := s.inodes[no].(root := node)])
    case InBlock(c) => s.(payload := s.payload[c := TreeNode(node)])
  }

  lemma WithClusterBalanced(g: Geo, books: Books, s: State, c: nat, content: Cluster)
    requires Balanced(g, books, s) && c in s.payload && c !in s.final
    ensures Balanced(g, books, s.(payload := s.payload[c := content]))
  {
  }

  /** The node below the last index of a node, as append_to_extent_tree finds it ... */
  function LastChild(g: Geo, node: Node): (child: NodeRef)
    requires 0 < node.entries && node.entries - 1 in node.slots
    ensures child.InBlock?
  {
    InBlock(g.E4BlkToFatCl(FollowedBlock(node.slots[node.entries - 1])))
  }

  /** ... and as last_extent finds it. */
  function LastBelow(g: Geo, node: Node): (child: NodeRef)
    requires 0 < node.entries && node.entries - 1 in node.slots
    ensures child.InBlock?
    ensures ChildBlock(node.slots[node.entries - 1]) < U32 ==> child == LastChild(g, node)
  {
    InBlock(g.E4BlkToFatCl(ChildBlock(node.slots[node.entries - 1])))
  }

  /** A leaf, or a node whose last index leads to a leaf. */
  ghost predicate Appendable(g: Geo, s: State, ref: NodeRef) {
    && HasNode(s, ref) && NodeOf(s, ref).depth <= 1
    && (NodeOf(s, ref).depth == 1 ==>
          var node := NodeOf(s, ref);
          && 0 < node.entries && node.entries - 1 in node.slots
          && HasNode(s, LastChild(g, node)) && NodeOf(s, LastChild(g, node)).depth == 0)
  }

  /** What append_to_extent_tree does to a leaf, or to a node above a leaf: the extent becomes the
      last entry of the leaf if there is room, and otherwise overwrites the last index of the node
      above if the node is not full. */
  ghost predicate AppendedTo(g: Geo, s: State, t: State, ref: NodeRef, e: Ext4Extent, ok: bool, overflow: bool)
    requires Appendable(g, s, ref)
  {
    var node := NodeOf(s, ref);
    if node.depth == 0 then
      && !overflow && (ok <==> node.entries < node.max)
      && t == if ok then WithNode(s, ref, WithLeaf(node, e)) else s
    else
      var child := LastChild(g, node);
      var leaf := NodeOf(s, child);
      && (ok <==> leaf.entries < leaf.max || node.entries < node.max)
      && (overflow <==> ok && leaf.entries >= leaf.max)
      && t == if !ok then s else if overflow then WithNode(s, ref, WithNewIdxPath(node, e))
              else WithNode(s, child, WithLeaf(leaf, e))
  }

  /** The state after one cluster has been allocated. */
  ghost predicate Claimed(g: Geo, blocked: seq<Extent>, s: State, t: State, c: nat) {
    && g.firstDataClusterBlock <= g.blockCount && c in s.remaining && c !in s.payload
    && FAT_START_INDEX <= c < g.DataClusterCount()
    && c in t.payload && t == s.(remaining := s.remaining - {c}, payload := s.payload[c := t.payload[c]])
    && Consumed(s.remaining, t.remaining)
    && !InBlocked(blocked, c)
  }

  lemma ClaimedIsPlaceable(g: Geo, blocked: seq<Extent>, books: Books, s: State, t: State, c: nat,
                           logicalStart: nat)
    requires Claimed(g, blocked, s, t, c) && Balanced(g, books, s)
    ensures Placeable(g, blocked, t, Extent(logicalStart, 1, c)) && Balanced(g, books, t)
    ensures Between(s, t, {}, {})
  {
  }

  lemma WithNodeBalanced(g: Geo, books: Books, s: State, ref: NodeRef, node: Node)
    requires Balanced(g, books, s) && HasNode(s, ref)
    ensures Balanced(g, books, WithNode(s, ref, node)) && HasNode(WithNode(s, ref, node), ref)
    ensures NodeOf(WithNode(s, ref, node), ref) == node
  {
  }

  /** The volume and its block groups fit together, and share no object. */
  ghost predicate Apart(vol: Volume, groups: BlockGroups)
    reads vol, vol.allocator, groups
  {
    && groups.g.Valid() && groups.g.blockSize <= 32768
    && vol.allocator.clusterCount == groups.g.DataClusterCount()
    && MetaExtents(groups.g, vol.allocator.blocked)
    && groups.memory as object != vol.disk && groups.memory as object != vol.allocator.bitmap
    && groups.groupDescs as object != vol.disk && groups.groupDescs as object != vol.allocator.bitmap
  }

  class Ext4Volume {
    const vol: Volume
    const groups: BlockGroups
    /** The inode tables, by inode number. */
    var inodes: map<nat, Inode>
    var firstFreeInodeNo: nat
    ghost var registered: set<nat>
    ghost var owner: map<nat, nat>
    ghost var final: map<nat, Cluster>
    ghost var sealed: map<nat, Inode>
    /** The device as the FAT phase left it. */
    ghost const original: seq<bv32>

    /** The state in which phase two begins; final are the clusters it must not touch. */
    constructor (vol: Volume, groups: BlockGroups, ghost final: map<nat, Cluster>)
      requires vol.Valid() && groups.Valid() && groups.books == Books({}, {}, {}) && Grown(final, vol.payload)
      requires Apart(vol, groups)
      ensures Valid() && this.vol == vol && this.groups == groups && original == groups.memory[..]
      ensures Now() == State(vol.log, vol.allocator.Remaining(), vol.payload, {}, final, map[], map[],
                             EXT4_FIRST_NON_RSV_INODE + 1, map[])
    {
      this.vol, this.groups := vol, groups;
      this.inodes, this.firstFreeInodeNo := map[], EXT4_FIRST_NON_RSV_INODE + 1;
      this.registered, this.final, this.sealed, this.original := {}, final, map[], groups.memory[..];
      this.owner := map[];
      new;
      hide Volume.Valid, BlockGroups.Valid, MetaExtents;
    }

    ghost function Now(): State
      reads this, vol, vol.allocator
    {
      State(vol.log, vol.allocator.Remaining(), vol.payload, registered, final, inodes, sealed, firstFreeInodeNo, owner)
    }

    /** The objects are what they should be, and apart. */
    ghost predicate Shape()
      reads this, vol, vol.allocator, groups
    {
      Apart(vol, groups)
    }

    ghost predicate Valid()
      reads this, vol, vol.disk, vol.allocator, vol.allocator.bitmap, groups, groups.memory, groups.groupDescs
    {
      && Shape() && vol.Valid() && groups.Valid() && Balanced(groups.g, groups.books, Now())
      && DataKept(groups.g, original, groups.memory[..])
    }

    ghost predicate Open(no: nat)
      reads this
    {
      no in inodes && no !in sealed
    }

    /** The end of register_extent: i_blocks and the block bitmap. */
    method RegisterBlocks(e: Extent, no: nat)
      requires Valid() && Open(no) && Placeable(groups.g, vol.allocator.blocked, Now(), e)
      modifies `inodes, `registered, `owner, groups`books, groups.memory, groups.groupDescs
      ensures Valid()
      ensures var s, inode := old(Now()), old(inodes[no]);
              Now() == Registered(s, Span(e.physicalStart, e.length), no).(
                         inodes := s.inodes[no := inode.(
                                              blocks := IncrLoHi48(inode.blocks, Sectors(groups.g, e.length)))])
    {
      hide Volume.Valid, BlockGroups.Valid, DataKept, MetaExtents, InsideOneGroup, Placeable, Span, IncrLoHi48,
           SetLoHi48, FromLoHi32,
           Geo.GroupsHoldMetadata, Geo.FatClToE4Blk, Balanced, Geo.IsMetadata, Assigned;
      StartInRange(groups.g, vol.allocator.blocked, Now(), e);
      vol.ValidIsIntact();
      vol.PayloadInRange();
      PlaceableFacts(groups.g, vol.allocator.blocked, groups.books, Now(), e, no);
      ghost var before, s := groups.memory[..], Now();
      var inode, eext := inodes[no], ToExt4Extent(groups.g, e);
      inodes := inodes[no := inode.(blocks := IncrLoHi48(inode.blocks, Sectors(groups.g, eext.len)))];
      var startBlock := FromLoHi32(eext.start);
      groups.AddExtentToBlockBitmap(startBlock, startBlock + eext.len);
      registered := registered + Span(e.physicalStart, e.length);
      owner := Assigned(owner, Span(e.physicalStart, e.length), no);
      BalancedInode(groups.g, groups.books, s.(registered := registered, owner := owner), no, inodes[no]);
      DataKeptTransitive(groups.g, original, before, groups.memory[..]);
    }

    method ReadNode(ref: NodeRef) returns (node: Node)
      requires Valid() && HasNode(Now(), ref)
      ensures node == NodeOf(Now(), ref)
    {
      hide BlockGroups.Valid, DataKept, MetaExtents, Balanced, Stored, Complete, ExtentAllocator.Valid;
      match ref
      case InInode(no) => node := inodes[no].root;
      case InBlock(c) => node := vol.disk[c].node;
    }

    method WriteNode(ref: NodeRef, node: Node)
      requires Valid() && HasNode(Now(), ref)
      modifies `inodes, vol`payload, vol.disk
      ensures Valid() && HasNode(Now(), ref)
      ensures Now() == WithNode(old(Now()), ref, node) && inodes.Keys == old(inodes.Keys)
    {
      hide BlockGroups.Valid, DataKept, MetaExtents, Balanced, Volume.Valid;
      WithNodeBalanced(groups.g, groups.books, Now(), ref, node);
      match ref
      case InInode(no) => inodes := inodes[no := inodes[no].(root := node)];
      case InBlock(c) => WriteCluster(c, TreeNode(node));
    }

    /** A write to a cluster that is not yet final. */
    method WriteCluster(c: nat, content: Cluster)
      requires Valid() && c in vol.payload && c !in final
      modifies vol`payload, vol.disk
      ensures Valid()
      ensures Now() == old(Now()).(payload := old(vol.payload)[c := content])
    {
      hide BlockGroups.Valid, DataKept, MetaExtents, Balanced, Volume.Valid;
      WithClusterBalanced(groups.g, groups.books, Now(), c, content);
      vol.WriteCluster(c, content);
    }

    /** append_in_block */
    method AppendInBlock(ref: NodeRef, e: Ext4Extent) returns (ok: bool)
      requires Valid() && HasNode(Now(), ref)
      modifies `inodes, vol`payload, vol.disk
      ensures Valid() && HasNode(Now(), ref) && inodes.Keys == old(inodes.Keys)
      ensures var node := NodeOf(old(Now()), ref);
              && (ok <==> node.entries < node.max)
              && Now() == if ok then WithNode(old(Now()), ref, WithLeaf(node, e)) else old(Now())
    {
      hide Ext4Volume.Valid, HasNode, WithNode, NodeOf;
      var node := ReadNode(ref);
      if node.entries >= node.max { return false; }
      WriteNode(ref, WithLeaf(node, e));
      return true;
    }

    /** append_to_extent_tree; overflow tells that append_to_new_idx_path was called. */
    method AppendToExtentTree(ref: NodeRef, e: Ext4Extent) returns (ok: bool, overflow: bool)
      requires Valid() && Appendable(groups.g, Now(), ref)
      modifies `inodes, vol`payload, vol.disk
      ensures Valid() && inodes.Keys == old(inodes.Keys)
      ensures AppendedTo(groups.g, old(Now()), Now(), ref, e, ok, overflow)
      decreases NodeOf(Now(), ref).depth
    {
      hide Ext4Volume.Valid, HasNode, WithNode, NodeOf, ChildBlock, Geo.E4BlkToFatCl;
      var rootHeader := ReadNode(ref);
      if rootHeader.depth == 0 {
        ok := AppendInBlock(ref, e);
        return ok, false;
      }
      ok, overflow := AppendToExtentTree(LastChild(groups.g, rootHeader), e);
      if ok { return; }
      if rootHeader.entries < rootHeader.max {
        WriteNode(ref, WithNewIdxPath(rootHeader, e));
        return true, true;
      }
      return false, false;
    }

    /** last_extent */
    method LastExtent(no: nat, ghost exts: seq<Ext4Extent>) returns (e: Ext4Extent)
      requires Valid() && Open(no) && Describes(groups.g, Now(), inodes[no], exts) && exts != []
      ensures e == Last(exts)
    {
      hide Ext4Volume.Valid, ChildBlock, Geo.E4BlkToFatCl, CountsBlocks, MaxEntries;
      ValidShape();
      var ref := InInode(no);
      var header := ReadNode(ref);
      while header.depth > 0
        invariant HasNode(Now(), ref) && header == NodeOf(Now(), ref)
        invariant header.depth > 0 ==> ref == InInode(no)
        invariant header.depth == 0 ==> LeafHolds(header, exts)
        decreases header.depth
      {
        ref := LastBelow(groups.g, header);
        header := ReadNode(ref);
      }
      e := header.slots[header.entries - 1].extent;
    }

    /** add_inode finds no block group for the next inode. */
    ghost predicate NoInodeLeft()
      requires groups.g.Valid()
      reads this
    {
      groups.g.GroupCount() * groups.g.InodesPerGroup() < firstFreeInodeNo
    }

    /** save_inode with add_inode, as build_inode calls them. */
    method BuildInode(isDir: bool) returns (r: Option<nat>)
      requires Valid()
      modifies `inodes, `firstFreeInodeNo, groups`books, groups.memory, groups.groupDescs
      ensures r.None? ==> Valid() && Now() == old(Now()) && NoInodeLeft()
      ensures r.Some? ==>
                && Valid() && r.value == old(firstFreeInodeNo) && Open(r.value) && r.value !in old(inodes)
                && 0 < groups.g.InodesPerGroup() && groups.g.InodeGroup(r.value) < groups.g.GroupCount()
                && Now() == old(Now()).(nextInode := r.value + 1,
                                        inodes := old(inodes)[r.value := NewInode(isDir, if isDir then 2 else 1)])
    {
      hide BlockGroups.Valid, DataKept, MetaExtents, Volume.Valid, Balanced, Geo.InodesPerGroup, Geo.GroupCount,
           Geo.GroupsHoldMetadata, Geo.InodeGroup;
      ghost var s, books, before := Now(), groups.books, groups.memory[..];
      var inode := NewInode(isDir, if isDir then 2 else 1);
      NextInodeIsNew(groups.g, books, s);
      BalancedNewInode(groups.g, books, s, inode);
      InodeGroupExists(groups.g, firstFreeInodeNo);
      var ok := groups.AddInode(firstFreeInodeNo, isDir);
      DataKeptTransitive(groups.g, original, before, groups.memory[..]);
      if !ok { return None; }
      r := Some(firstFreeInodeNo);
      inodes := inodes[firstFreeInodeNo := inode];
      firstFreeInodeNo := firstFreeInodeNo + 1;
    }

    /** add_reserved_inode */
    method AddReservedInode(no: nat, inode: Inode)
      requires Valid() && 0 < no <= EXT4_FIRST_NON_RSV_INODE && no !in inodes
      modifies `inodes, groups`books, groups.groupDescs
      ensures Valid() && Now() == old(Now()).(inodes := old(inodes)[no := inode]) && Open(no)
    {
      hide BlockGroups.Valid, DataKept, MetaExtents, Volume.Valid, Balanced;
      groups.ValidIsShape();
      BalancedReserved(groups.g, groups.books, Now(), no, inode);
      groups.AddReservedInode(no, inode.isDir);
      inodes := inodes[no := inode];
    }

    /** A change to the fields of an inode, as set_size and incr_links_count make it. */
    method UpdateInode(no: nat, inode: Inode)
      requires Valid() && Open(no) && inode.isDir == inodes[no].isDir
      modifies `inodes
      ensures Valid() && Now() == old(Now()).(inodes := old(inodes)[no := inode]) && Open(no)
    {
      hide BlockGroups.Valid, DataKept, MetaExtents, Volume.Valid, Balanced;
      BalancedInode(groups.g, groups.books, Now(), no, inode);
      inodes := inodes[no := inode];
    }

    /** An inode is complete, and so are these clusters. */
    ghost method Seal(no: nat, clusters: set<nat>)
      requires Valid() && Open(no) && clusters <= vol.payload.Keys
      modifies `final, `sealed
      ensures Valid() && clusters <= final.Keys
      ensures Now() == old(Now()).(final := final, sealed := old(sealed)[no := inodes[no]])
      ensures Grown(old(final), final) && forall c :: c in final && c !in old(final) ==> c in clusters
    {
      hide BlockGroups.Valid, DataKept, MetaExtents, Volume.Valid, BlocksOf;
      final := final + map c | c in clusters :: vol.payload[c];
      sealed := sealed[no := inodes[no]];
    }

    /** The disk was full: no cluster is left, and nothing final is lost. */
    ghost predicate Stopped(final0: map<nat, Cluster>)
      reads this, vol, vol.disk, vol.allocator, vol.allocator.bitmap
    {
      vol.Intact() && vol.allocator.Remaining() == {} && Grown(final0, vol.payload)
    }

    lemma StoppedHere(since: Moment, final0: map<nat, Cluster>)
      requires vol.GaveUp(since) && Grown(final0, since.payload)
      ensures Stopped(final0)
    {
    }

    /** allocate_extent(1) */
    method AllocateCluster() returns (r: Option<nat>)
      requires Valid()
      modifies vol`payload, vol.allocator, vol.allocator.bitmap
      ensures r.None? ==> Stopped(final)
      ensures r.Some? ==> Valid() && Claimed(groups.g, vol.allocator.blocked, old(Now()), Now(), r.value)
      ensures r.Some? ==> forall l: nat :: Placeable(groups.g, vol.allocator.blocked, Now(), Extent(l, 1, r.value))
      ensures r.Some? ==> Between(old(Now()), Now(), {}, {})
      ensures r.None? ==> old(vol.allocator.Remaining()) == {}
      ensures Frugal(old(Now()), Now(), 1)
    {
      hide BlockGroups.Valid, DataKept, MetaExtents, Volume.Valid, Grows, ExtentAllocator.Valid,
           Geo.GroupsHoldMetadata, AtLeast, InBlocked, BlocksOf, Stored, Complete, Balanced, Between, Placeable,
           Frugal, Volume.GaveUp, Later, Uses, Size, ExtentAllocator.Remaining;
      FinalIsOnDisk();
      vol.AvailableIsOpen();
      vol.ValidIsIntact();
      vol.allocator.RemainingInRange();
      var e := vol.Claim(1);
      if e.None? {
        StoppedHere(old(vol.Now()), final);
        NothingIsFrugal(old(Now()), Now());
        return None;
      }
      LaterSpends(old(vol.Now()), vol.Now());
      r := Some(e.value.physicalStart);
      SpanGrows(e.value.physicalStart, 0);
      OneTaken(old(vol.allocator.Remaining()), e.value, vol.allocator.Remaining());
      forall l: nat ensures Placeable(groups.g, vol.allocator.blocked, Now(), Extent(l, 1, r.value)) {
        ClaimedIsPlaceable(groups.g, vol.allocator.blocked, groups.books, old(Now()), Now(), r.value, l);
      }
      ClaimedIsPlaceable(groups.g, vol.allocator.blocked, groups.books, old(Now()), Now(), r.value, 0);
      OneIsFrugal(old(Now()), Now(), r.value);
    }

    /** make_tree_deeper; c is the cluster of the new block. */
    method MakeTreeDeeper(no: nat) returns (ok: bool, ghost c: nat)
      requires Valid() && Open(no)
      modifies `inodes, `registered, `owner, vol`payload, vol.disk, vol.allocator, vol.allocator.bitmap
      modifies groups`books, groups.memory, groups.groupDescs
      ensures !ok ==> Stopped(old(final))
      ensures ok ==>
                && Valid() && Open(no) && FAT_START_INDEX <= c < groups.g.DataClusterCount()
                && c in old(Now()).remaining && c !in old(Now()).payload
                && Now() == WithDeeperTree(groups.g, old(Now()), no, c)
                && Consumed(old(Now()).remaining, old(Now()).remaining - {c})
      ensures !ok ==> old(vol.allocator.Remaining()) == {}
    {
      hide Ext4Volume.Valid, Placeable, Balanced, InBlocked, IncrLoHi48, Sectors, Deepened, Geo.FatClToE4Blk, Between,
           Assigned, Geo.GroupsHoldMetadata, MetaExtents, Frugal, Ext4Volume.Stopped;
      ValidShape();
      ValidIsBalanced();
      ghost var s, books := Now(), groups.books;
      var cluster := AllocateCluster();
      if cluster.None? { return false, 0; }
      c := cluster.value;
      RegisterBlocks(Extent(0, 1, cluster.value), no);
      SpanGrows(c, 0);
      var root := inodes[no].root;
      FreshIsNotFinal(groups.g, books, s, c);
      WriteCluster(cluster.value, TreeNode(root.(max := MaxEntries(groups.g))));
      WriteNode(InInode(no), Deepened(root, groups.g.FatClToE4Blk(cluster.value)));
      return true, c;
    }

    /** add_extent */
    method AddExtent(e: Ext4Extent, no: nat, ghost exts: seq<Ext4Extent>) returns (outcome: Outcome)
      requires Valid() && Open(no) && Describes(groups.g, Now(), inodes[no], exts)
      modifies `inodes, `registered, `owner, vol`payload, vol.disk, vol.allocator, vol.allocator.bitmap
      modifies groups`books, groups.memory, groups.groupDescs
      ensures !outcome.OutOfInodes?
      ensures outcome.DiskFull? ==> Stopped(old(final)) && |exts| == INODE_ENTRIES
      ensures !outcome.DiskFull? ==> Valid() && Open(no)
      ensures outcome.Done? ==> |exts| < MaxEntries(groups.g) && Added(groups.g, old(Now()), Now(), no, exts, e)
      ensures !outcome.DiskFull? ==>
                AddStep(groups.g, TreeState(old(inodes[no]).root, old(vol.payload)),
                        TreeState(inodes[no].root, vol.payload), e)
      ensures outcome.TreeOverflow? ==>
                && |exts| == MaxEntries(groups.g) && Overflowed(inodes[no].root)
                && old(inodes[no]).root.entries > 0
                && Now() == WithNode(old(Now()), InInode(no), WithNewIdxPath(old(inodes[no]).root, e))
      ensures Frugal(old(Now()), Now(), if |exts| == INODE_ENTRIES then 1 else 0)
    {
      hide Ext4Volume.Valid, Between, Balanced, Describes, Appendable, Added, WithDeeperTree, HasNode, Consumed,
           WithNode, NodeOf, NodeClusters,
           Geo.GroupsHoldMetadata, MaxEntries, LastChild, MetaExtents, Geo.FatClToE4Blk, AddStep;
      ValidShape();
      DescribesAppendable(groups.g, Now(), no, exts);
      ghost var s, c := Now(), 0;
      FinalIsPayload();
      var ok, overflow := AppendToExtentTree(InInode(no), e);
      if !ok {
        ok, c := MakeTreeDeeper(no);
        if !ok { return Outcome.DiskFull; }
        DeeperIsFrugal(groups.g, s, no, c);
        DeepenedAppendable(groups.g, s, no, exts, c);
        ok, overflow := AppendToExtentTree(InInode(no), e);
        AddedDeeper(groups.g, s, no, exts, e, c);
        StepDeeper(groups.g, s, no, exts, e, c);
      } else if |exts| < INODE_ENTRIES {
        AddedToInode(groups.g, s, no, exts, e);
        StepInInode(groups.g, s, no, e);
      } else if !overflow {
        AddedToBlock(groups.g, s, no, exts, e, LastChild(groups.g, s.inodes[no].root));
        StepInBlock(groups.g, s, no, e);
      } else {
        StepInBlock(groups.g, s, no, e);
      }
      if overflow { OverflowSeen(s, no, e); }
      return if overflow then TreeOverflow else Done;
    }

    /** register_extent */
    method RegisterExtent(e: Extent, no: nat, ghost exts: seq<Ext4Extent>) returns (outcome: Outcome)
      requires Valid() && Open(no) && Describes(groups.g, Now(), inodes[no], exts)
      requires Placeable(groups.g, vol.allocator.blocked, Now(), e)
      modifies `inodes, `registered, `owner, vol`payload, vol.disk, vol.allocator, vol.allocator.bitmap
      modifies groups`books, groups.memory, groups.groupDescs
      ensures !outcome.OutOfInodes?
      ensures outcome.DiskFull? ==> Stopped(old(final))
      ensures !outcome.DiskFull? ==> Valid() && Open(no) && (outcome.Done? <==> |exts| < MaxEntries(groups.g))
      ensures outcome.Done? ==>
                && Describes(groups.g, Now(), inodes[no], exts + [ToExt4Extent(groups.g, e)])
                && inodes[no] == old(inodes[no]).(root := inodes[no].root, blocks := inodes[no].blocks)
                && inodes == old(inodes)[no := inodes[no]]
                && Between(old(Now()), Now(),
                           NodeClusters(groups.g, old(inodes[no]).root) + Span(e.physicalStart, e.length), {no})
                && Span(e.physicalStart, e.length) <= registered
                && (forall c :: c in old(vol.payload) && c !in NodeClusters(groups.g, old(inodes[no]).root) ==>
                      c in vol.payload && vol.payload[c] == old(vol.payload)[c])
                && forall c :: c in NodeClusters(groups.g, inodes[no].root) ==>
                     c in NodeClusters(groups.g, old(inodes[no]).root) || c !in old(vol.payload)
      ensures outcome.Done? ==> GainsOwned(groups.g, old(Now()), Now(), no, Span(e.physicalStart, e.length))
      ensures outcome.TreeOverflow? ==> Overflowed(inodes[no].root)
      ensures Frugal(old(Now()), Now(), if |exts| == INODE_ENTRIES then 1 else 0)
    {
      hide GainsOwned, Assigned, Ext4Volume.Valid, Between, Balanced, Describes, Appendable, Consumed, NodeClusters,
           TreeHolds, Placeable,
           Added,
           Geo.GroupsHoldMetadata, MaxEntries, LastChild, MetaExtents, Geo.FatClToE4Blk, Span, Sectors, IncrLoHi48,
           ToExt4Extent;
      ValidShape();
      StartInRange(groups.g, vol.allocator.blocked, Now(), e);
      ghost var s := Now();
      outcome := AddExtent(ToExt4Extent(groups.g, e), no, exts);
      if outcome.DiskFull? { return; }
      ghost var t, blocked := Now(), vol.allocator.blocked;
      if outcome.Done? {
        DescribedNodes(groups.g, s, s.inodes[no], exts);
        AddedFacts(groups.g, s, t, no, exts, ToExt4Extent(groups.g, e));
        StillPlaceable(groups.g, blocked, s, t, NodeClusters(groups.g, s.inodes[no].root), {no}, e);
        PlaceableInPayload(groups.g, blocked, s, e);
        ValidIsBalanced();
        PlaceableUnowned(groups.g, blocked, groups.books, t, e);
        RegisteredDescribes(groups.g, s, t, no, exts, e);
      } else {
        PlaceableOverflow(groups.g, blocked, s, no, WithNewIdxPath(s.inodes[no].root, ToExt4Extent(groups.g, e)), e);
      }
      RegisterBlocks(e, no);
      if outcome.Done? {
        RegisteredOwned(groups.g, s, t, Now(), no, exts, ToExt4Extent(groups.g, e), Span(e.physicalStart, e.length));
      }
    }

    lemma PayloadOnDisk(c: nat)
      requires Valid() && c in vol.payload
      ensures c < vol.disk.Length && vol.disk[c] == vol.payload[c]
    {
      hide Stored, Complete, Balanced, DataKept, BlockGroups.Valid;
    }

    lemma FinalIsOnDisk()
      requires Valid()
      ensures Grown(final, vol.payload)
    {
    }

    lemma ArchiveIsIntact()
      requires Valid()
      ensures ArchiveOk(vol.disk[..], vol.log, vol.pageSize)
    {
      hide Stored, Complete, Balanced, DataKept, BlockGroups.Valid;
    }

    lemma FinalIsPayload()
      requires Valid()
      ensures forall k :: k in final ==> k in vol.payload
      ensures forall c :: c in owner ==> c in vol.payload
    {
    }

    lemma ValidShape()
      requires Valid()
      ensures Shape() && groups.g.Valid()
    {
    }

    lemma ValidIsBalanced()
      requires Valid()
      ensures Balanced(groups.g, groups.books, Now())
    {
    }
  }

  /** The state after make_tree_deeper has used cluster c. */
  ghost function WithDeeperTree(g: Geo, s: State, no: nat, c: nat): State
    requires g.Valid() && no in s.inodes && FAT_START_INDEX <= c
  {
    var inode := s.inodes[no];
    Registered(s, {c}, no).(
       remaining := s.remaining - {c},
       payload := s.payload[c := TreeNode(inode.root.(max := MaxEntries(g)))],
       inodes := s.inodes[no := inode.(root := Deepened(inode.root, g.FatClToE4Blk(c)),
                                       blocks := IncrLoHi48(inode.blocks, Sectors(g, 1)))])
  }

  lemma DeeperIsFrugal(g: Geo, s: State, no: nat, c: nat)
    requires g.Valid() && no in s.inodes && FAT_START_INDEX <= c
    ensures Frugal(s, WithDeeperTree(g, s, no, c), 1)
  {
    OneIsFrugal(s, WithDeeperTree(g, s, no, c), c);
  }

  lemma FreshIsNotFinal(g: Geo, books: Books, s: State, c: nat)
    requires Balanced(g, books, s) && c !in s.payload
    ensures c !in s.final && c !in s.registered && c !in s.owner
  {
  }

  // --- add_extent and register_extent --------------------------------------------------

  /** How far a step of register_extent gets: the extent is in the tree, and registered. */
  ghost predicate Added(g: Geo, s: State, t: State, no: nat, exts: seq<Ext4Extent>, e: Ext4Extent)
    requires g.Valid()
  {
    && no in s.inodes && no in t.inodes
    && t.inodes == s.inodes[no := t.inodes[no]]
    && t.inodes[no] == s.inodes[no].(root := t.inodes[no].root, blocks := t.inodes[no].blocks)
    && TreeHolds(g, t.payload, t.inodes[no].root, exts + [e])
    && (forall c :: c in NodeClusters(g, t.inodes[no].root) ==>
          c !in t.final && c in t.registered && (c in NodeClusters(g, s.inodes[no].root) || c !in s.payload))
    && (var before := s.inodes[no].blocks;
        t.inodes[no].blocks == if |exts| == INODE_ENTRIES then IncrLoHi48(before, Sectors(g, 1)) else before)
    && (if |exts| == INODE_ENTRIES then
          && NodeClusters(g, s.inodes[no].root) == {}
          && t.owner == Assigned(s.owner, NodeClusters(g, t.inodes[no].root), no)
        else t.owner == s.owner && NodeClusters(g, t.inodes[no].root) == NodeClusters(g, s.inodes[no].root))
    && Between(s, t, NodeClusters(g, s.inodes[no].root), {no})
  }

  /** Where append_to_extent_tree finds the room, or no room. */
  lemma DescribesAppendable(g: Geo, s: State, no: nat, exts: seq<Ext4Extent>)
    requires g.Valid() && no in s.inodes && no !in s.sealed && Describes(g, s, s.inodes[no], exts)
    ensures INODE_ENTRIES < MaxEntries(g) && Appendable(g, s, InInode(no))
    ensures var root := s.inodes[no].root;
            && NodeOf(s, InInode(no)) == root
            && if |exts| <= INODE_ENTRIES then root.depth == 0 && root.entries == |exts| && root.max == INODE_ENTRIES
               else
                 && root.depth == 1 && root.entries == 1 < root.max
                 && 0 in root.slots && HasNode(s, LastChild(g, root))
                 && NodeClusters(g, root) == {LastChild(g, root).cluster}
                 && var leaf := NodeOf(s, LastChild(g, root));
                    leaf.entries == |exts| && leaf.max == MaxEntries(g) && |exts| <= MaxEntries(g)
  {
    hide Geo.GroupsHoldMetadata, ChildBlock, Geo.E4BlkToFatCl, Sectors, FromLoHi32;
  }

  lemma AddedToInode(g: Geo, s: State, no: nat, exts: seq<Ext4Extent>, e: Ext4Extent)
    requires g.Valid() && no in s.inodes && no !in s.sealed && Describes(g, s, s.inodes[no], exts)
    requires |exts| < INODE_ENTRIES
    ensures Added(g, s, WithNode(s, InInode(no), WithLeaf(s.inodes[no].root, e)), no, exts, e)
  {
    hide Geo.GroupsHoldMetadata, ChildBlock, Geo.E4BlkToFatCl, Sectors, FromLoHi32;
    assert MaxEntries(g) > INODE_ENTRIES;
    GrownTree(g, s.payload, s.inodes[no].root, exts, e);
  }

  lemma AddedToBlock(g: Geo, s: State, no: nat, exts: seq<Ext4Extent>, e: Ext4Extent, child: NodeRef)
    requires g.Valid() && no in s.inodes && no !in s.sealed && Describes(g, s, s.inodes[no], exts)
    requires INODE_ENTRIES < |exts| < MaxEntries(g)
    requires child.InBlock? && NodeClusters(g, s.inodes[no].root) == {child.cluster} && HasNode(s, child)
    ensures Added(g, s, WithNode(s, child, WithLeaf(NodeOf(s, child), e)), no, exts, e)
  {
    hide Geo.GroupsHoldMetadata, ChildBlock, Geo.E4BlkToFatCl, Sectors, FromLoHi32, LeafHolds, MaxEntries;
    GrownTree(g, s.payload, s.inodes[no].root, exts, e);
  }

  lemma DeepenedAppendable(g: Geo, s: State, no: nat, exts: seq<Ext4Extent>, c: nat)
    requires g.Valid() && no in s.inodes && no !in s.sealed && Describes(g, s, s.inodes[no], exts)
    requires |exts| == INODE_ENTRIES
    requires FAT_START_INDEX <= c < g.DataClusterCount() && c !in s.payload
    requires (forall k :: k in s.final ==> k in s.payload)
    ensures var t := WithDeeperTree(g, s, no, c);
            && Appendable(g, t, InInode(no)) && NodeOf(t, InInode(no)) == t.inodes[no].root
            && t.inodes[no].root.depth == 1
            && LastChild(g, t.inodes[no].root) == InBlock(c)
            && NodeOf(t, InBlock(c)) == s.inodes[no].root.(max := MaxEntries(g))
            && NodeOf(t, InBlock(c)).entries < NodeOf(t, InBlock(c)).max
  {
    hide Geo.GroupsHoldMetadata, Sectors, FromLoHi32;
    assert MaxEntries(g) > INODE_ENTRIES;
    AddressStored(g, c);
  }

  lemma NoBlockYet(g: Geo, root: Node)
    ensures root.depth == 0 ==> NodeClusters(g, root) == {}
  {
  }

  lemma DeeperBetween(g: Geo, s: State, no: nat, c: nat, own: set<nat>, content: Cluster)
    requires g.Valid() && no in s.inodes && no !in s.sealed && FAT_START_INDEX <= c
    requires c in s.remaining && c !in s.payload && Consumed(s.remaining, s.remaining - {c})
    requires (forall k :: k in s.final ==> k in s.payload) && (forall k :: k in s.owner ==> k in s.payload)
    ensures var t := WithDeeperTree(g, s, no, c);
            Between(s, t.(payload := t.payload[c := content]), own, {no})
  {
    hide Geo.GroupsHoldMetadata, Sectors, MaxEntries, Consumed, IncrLoHi48, Geo.FatClToE4Blk, Deepened, Assigned;
    AssignedFacts(s.owner, {c}, no);
  }

  lemma AddedDeeper(g: Geo, s: State, no: nat, exts: seq<Ext4Extent>, e: Ext4Extent, c: nat)
    requires g.Valid() && no in s.inodes && no !in s.sealed && Describes(g, s, s.inodes[no], exts)
    requires |exts| == INODE_ENTRIES
    requires FAT_START_INDEX <= c < g.DataClusterCount() && c in s.remaining && c !in s.payload
    requires (forall k :: k in s.final ==> k in s.payload) && Consumed(s.remaining, s.remaining - {c})
    requires forall k :: k in s.owner ==> k in s.payload
    ensures var t := WithDeeperTree(g, s, no, c);
            && HasNode(t, InBlock(c))
            && Added(g, s, WithNode(t, InBlock(c), WithLeaf(NodeOf(t, InBlock(c)), e)), no, exts, e)
  {
    hide Geo.GroupsHoldMetadata, ChildBlock, Geo.E4BlkToFatCl, Sectors, FromLoHi32, MaxEntries, Consumed, IncrLoHi48,
         Geo.FatClToE4Blk, CountsBlocks, SetLoHi48, NodeClusters, Assigned, Between;
    var t := WithDeeperTree(g, s, no, c);
    var u := WithNode(t, InBlock(c), WithLeaf(NodeOf(t, InBlock(c)), e));
    assert u == t.(payload := t.payload[c := u.payload[c]]);
    NoBlockYet(g, s.inodes[no].root);
    DeeperBetween(g, s, no, c, NodeClusters(g, s.inodes[no].root), u.payload[c]);
    DeepenedTree(g, u.payload, s.inodes[no].root, exts, e, c);
  }

  lemma SectorsAdd(g: Geo, a: nat, b: nat)
    requires g.blockSize % 512 == 0
    ensures Sectors(g, a + b) == Sectors(g, a) + Sectors(g, b)
  {
    var k := g.blockSize / 512;
    SectorsAre(g, a, k);
    SectorsAre(g, b, k);
    SectorsAre(g, a + b, k);
  }

  lemma SectorsAre(g: Geo, n: nat, k: nat)
    requires g.blockSize == 512 * k
    ensures Sectors(g, n) == n * k
  {
    assert n * g.blockSize == 512 * (n * k);
  }

  lemma SectorsBound(g: Geo, n: nat)
    requires g.blockSize <= 32768 && g.blockSize % 512 == 0 && n <= 0x1000_0000
    ensures Sectors(g, n) <= 0x4_0000_0000
  {
    var k := g.blockSize / 512;
    SectorsAre(g, n, k);
    MulMonotone(n, k, 64);
  }

  lemma BlocksCounted(g: Geo, h: Halves, n: nat, more: nat)
    requires g.blockSize <= 32768 && g.blockSize % 512 == 0 && n + more <= 0x1000_0000
    requires FromLoHi32(h) == Sectors(g, n)
    ensures FromLoHi32(IncrLoHi48(h, Sectors(g, more))) == Sectors(g, n + more)
  {
    hide Sectors, FromLoHi32, IncrLoHi48;
    SectorsAdd(g, n, more);
    SectorsBound(g, n + more);
    Incremented48(h, Sectors(g, more));
  }

  lemma CountsBlocksAfter(g: Geo, h: Halves, exts: seq<Ext4Extent>, e: Ext4Extent)
    requires g.Valid() && g.blockSize <= 32768 && CountsBlocks(g, h, exts) && |exts| < MaxEntries(g)
    requires e.len <= EXT4_MAX_INIT_EXTENT_LEN
    ensures var h' := if |exts| == INODE_ENTRIES then IncrLoHi48(h, Sectors(g, 1)) else h;
            CountsBlocks(g, IncrLoHi48(h', Sectors(g, e.len)), exts + [e])
  {
    hide Sectors, FromLoHi32, IncrLoHi48, Geo.GroupsHoldMetadata;
    assert (exts + [e])[..|exts|] == exts;
    var total := TotalLength(exts);
    assert MaxEntries(g) <= 2730 && total <= 0x800_0000;
    if |exts| == INODE_ENTRIES {
      BlocksCounted(g, h, total, 1);
      BlocksCounted(g, IncrLoHi48(h, Sectors(g, 1)), total + 1, e.len);
    } else {
      BlocksCounted(g, h, total + if |exts| > INODE_ENTRIES then 1 else 0, e.len);
    }
  }

  /** An extent can still be registered after the tree has grown. */
  lemma StillPlaceable(g: Geo, blocked: seq<Extent>, s: State, t: State, own: set<nat>, mine: set<nat>, e: Extent)
    requires Placeable(g, blocked, s, e) && Between(s, t, own, mine) && (forall c :: c in own ==> c in s.registered)
    ensures Placeable(g, blocked, t, e)
  {
    forall c | e.physicalStart <= c < e.End()
      ensures c in t.payload && c !in t.registered && !InBlocked(blocked, c)
    {
      assert c !in s.registered;
    }
  }

  // The same as steps of a run of add_extent.

  lemma StepInInode(g: Geo, s: State, no: nat, e: Ext4Extent)
    requires g.Valid() && no in s.inodes && no !in s.sealed
    requires s.inodes[no].root.depth == 0 && s.inodes[no].root.entries < s.inodes[no].root.max
    ensures HasNode(s, InInode(no))
    ensures var root := s.inodes[no].root;
            var t := WithNode(s, InInode(no), WithLeaf(root, e));
            && no in t.inodes && AddStep(g, TreeState(root, s.payload), TreeState(t.inodes[no].root, t.payload), e)
  {
    hide Geo.GroupsHoldMetadata;
  }

  lemma StepInBlock(g: Geo, s: State, no: nat, e: Ext4Extent)
    requires g.Valid() && Appendable(g, s, InInode(no)) && s.inodes[no].root.depth == 1
    ensures var root := s.inodes[no].root;
            && 0 < root.entries && root.entries - 1 in root.slots && HasNode(s, LastChild(g, root))
            && HasNode(s, InInode(no))
            && var leaf := NodeOf(s, LastChild(g, root));
               var t := if leaf.entries < leaf.max then WithNode(s, LastChild(g, root), WithLeaf(leaf, e))
                        else WithNode(s, InInode(no), WithNewIdxPath(root, e));
               && no in t.inodes && AddStep(g, TreeState(root, s.payload), TreeState(t.inodes[no].root, t.payload), e)
  {
    hide Geo.GroupsHoldMetadata, ChildBlock, Geo.E4BlkToFatCl;
  }

  lemma StepDeeper(g: Geo, s: State, no: nat, exts: seq<Ext4Extent>, e: Ext4Extent, c: nat)
    requires g.Valid() && no in s.inodes && Describes(g, s, s.inodes[no], exts) && |exts| == INODE_ENTRIES
    requires FAT_START_INDEX <= c < g.DataClusterCount() && c !in s.payload
    requires (forall k :: k in s.final ==> k in s.payload)
    ensures var t := WithDeeperTree(g, s, no, c);
            && HasNode(t, InBlock(c)) && no in t.inodes
            && var u := WithNode(t, InBlock(c), WithLeaf(NodeOf(t, InBlock(c)), e));
               && no in u.inodes
               && AddStep(g, TreeState(s.inodes[no].root, s.payload), TreeState(u.inodes[no].root, u.payload), e)
  {
    hide Geo.GroupsHoldMetadata, ChildBlock, Geo.E4BlkToFatCl, Sectors, FromLoHi32, MaxEntries, SetLoHi48;
    var u := s.payload[c := TreeNode(WithLeaf(s.inodes[no].root.(max := MaxEntries(g)), e))];
    assert TreeState(Deepened(s.inodes[no].root, g.FatClToE4Blk(c)), u).content == u;
  }

  lemma OverflowSeen(s: State, no: nat, e: Ext4Extent)
    requires HasNode(s, InInode(no)) && s.inodes[no].root.depth > 0 && s.inodes[no].root.entries == 1
    ensures var t := WithNode(s, InInode(no), WithNewIdxPath(s.inodes[no].root, e));
            no in t.inodes && Overflowed(t.inodes[no].root)
  {
  }

  lemma AddedFacts(g: Geo, s: State, t: State, no: nat, exts: seq<Ext4Extent>, e: Ext4Extent)
    requires g.Valid() && Added(g, s, t, no, exts, e)
    ensures no in s.inodes && no in t.inodes && Between(s, t, NodeClusters(g, s.inodes[no].root), {no})
    ensures t.inodes == s.inodes[no := t.inodes[no]]
    ensures t.inodes[no] == s.inodes[no].(root := t.inodes[no].root, blocks := t.inodes[no].blocks)
    ensures forall c :: c in NodeClusters(g, t.inodes[no].root) ==>
              c in NodeClusters(g, s.inodes[no].root) || c !in s.payload
    ensures forall c :: c in s.payload && c !in NodeClusters(g, s.inodes[no].root) ==>
              c in t.payload && t.payload[c] == s.payload[c]
  {
  }

  lemma PlaceableInPayload(g: Geo, blocked: seq<Extent>, s: State, e: Extent)
    requires Placeable(g, blocked, s, e)
    ensures forall c :: c in Span(e.physicalStart, e.length) ==> c in s.payload
  {
    forall c | c in Span(e.physicalStart, e.length) ensures c in s.payload {
      assert c !in s.registered;
    }
  }

  lemma PlaceableOverflow(g: Geo, blocked: seq<Extent>, s: State, no: nat, root: Node, e: Extent)
    requires Placeable(g, blocked, s, e) && HasNode(s, InInode(no))
    ensures Placeable(g, blocked, WithNode(s, InInode(no), root), e)
  {
  }

  lemma DescribedNodes(g: Geo, s: State, inode: Inode, exts: seq<Ext4Extent>)
    requires EXTENT_HEADER_SIZE <= g.blockSize && Describes(g, s, inode, exts)
    ensures forall c :: c in NodeClusters(g, inode.root) ==> c in s.registered
  {
  }

  lemma RegisteredDescribes(g: Geo, s: State, t: State, no: nat, exts: seq<Ext4Extent>, e: Extent)
    requires g.Valid() && g.blockSize <= 32768 && FAT_START_INDEX <= e.physicalStart
    requires e.length <= EXT4_MAX_INIT_EXTENT_LEN
    requires no in s.inodes && no !in s.sealed && Describes(g, s, s.inodes[no], exts) && |exts| < MaxEntries(g)
    requires Added(g, s, t, no, exts, ToExt4Extent(g, e))
    requires forall c :: c in Span(e.physicalStart, e.length) ==> c in s.payload && c !in t.owner
    ensures var inode := t.inodes[no].(blocks := IncrLoHi48(t.inodes[no].blocks, Sectors(g, e.length)));
            var u := Registered(t, Span(e.physicalStart, e.length), no).(inodes := t.inodes[no := inode]);
            && Describes(g, u, inode, exts + [ToExt4Extent(g, e)])
            && Between(s, u, NodeClusters(g, s.inodes[no].root) + Span(e.physicalStart, e.length), {no})
  {
    hide Geo.GroupsHoldMetadata, TreeHolds, NodeClusters, Sectors, IncrLoHi48, CountsBlocks, Span, MaxEntries, Consumed;
    CountsBlocksAfter(g, s.inodes[no].blocks, exts, ToExt4Extent(g, e));
  }

  /** The inode gains these clusters, and the block of its tree if it is new. */
  ghost predicate GainsOwned(g: Geo, s: State, t: State, no: nat, clusters: set<nat>) {
    && no in s.inodes && no in t.inodes && OnlyGains(s, t, no)
    && NodeClusters(g, s.inodes[no].root) <= NodeClusters(g, t.inodes[no].root)
    && (NodeClusters(g, s.inodes[no].root) <= Owned(s, no) ==>
          Owned(t, no) == Owned(s, no) + NodeClusters(g, t.inodes[no].root) + clusters)
  }

  lemma RegisteredOwned(g: Geo, s: State, t: State, u: State, no: nat, exts: seq<Ext4Extent>, e: Ext4Extent,
                        clusters: set<nat>)
    requires g.Valid() && Added(g, s, t, no, exts, e) && u.owner == Assigned(t.owner, clusters, no)
    requires forall c :: c in clusters ==> c !in t.owner
    requires no in u.inodes && u.inodes[no].root == t.inodes[no].root
    ensures GainsOwned(g, s, u, no, clusters)
  {
    hide Geo.GroupsHoldMetadata, TreeHolds, NodeClusters, Sectors, IncrLoHi48, Consumed;
  }

  lemma NothingOwned(g: Geo, books: Books, s: State, no: nat)
    requires Balanced(g, books, s) && no !in s.inodes
    ensures Owned(s, no) == {}
  {
    hide BlocksOf;
  }

  /** What may be placed belongs to no inode. */
  lemma PlaceableUnowned(g: Geo, blocked: seq<Extent>, books: Books, s: State, e: Extent)
    requires Placeable(g, blocked, s, e) && Balanced(g, books, s)
    ensures forall c :: c in Span(e.physicalStart, e.length) ==> c !in s.owner
  {
    hide BlocksOf;
    forall c | c in Span(e.physicalStart, e.length) ensures c !in s.owner {
      assert c !in s.registered;
    }
  }

  function NewInode(isDir: bool, links: nat): Inode {
    Inode(isDir, links, SetLoHi32(0), Halves(0, 0), InitExtentHeader())
  }

  /** The next inode number is in no book. */
  lemma NextInodeIsNew(g: Geo, books: Books, s: State)
    requires Balanced(g, books, s)
    ensures EXT4_FIRST_NON_RSV_INODE < s.nextInode && s.nextInode !in s.inodes && s.nextInode !in s.sealed
    ensures s.nextInode !in books.taken && s.nextInode !in books.dirs
  {
    hide BlocksOf;
  }

  lemma BalancedNewInode(g: Geo, books: Books, s: State, inode: Inode)
    requires Balanced(g, books, s)
    ensures var no := s.nextInode;
            Balanced(g, books.(taken := books.taken + {no}, dirs := books.dirs + if inode.isDir then {no} else {}),
                     s.(nextInode := no + 1, inodes := s.inodes[no := inode]))
  {
    hide BlocksOf;
    SpanGrows(EXT4_FIRST_NON_RSV_INODE + 1, s.nextInode - (EXT4_FIRST_NON_RSV_INODE + 1));
    hide Span;
    DirsAfter(s.inodes, s.nextInode, inode);
  }

  lemma DirsAfter(inodes: map<nat, Inode>, no: nat, inode: Inode)
    requires no !in inodes
    ensures Dirs(inodes[no := inode]) == Dirs(inodes) + if inode.isDir then {no} else {}
  {
  }

  lemma BalancedReserved(g: Geo, books: Books, s: State, no: nat, inode: Inode)
    requires Balanced(g, books, s) && 0 < no <= EXT4_FIRST_NON_RSV_INODE && no !in s.inodes
    ensures Balanced(g, books.(dirs := books.dirs + if inode.isDir then {no} else {}),
                     s.(inodes := s.inodes[no := inode]))
    ensures no !in s.sealed && no !in books.dirs
  {
    hide BlocksOf, Span;
    DirsAfter(s.inodes, no, inode);
  }

  lemma OneTaken(before: set<nat>, e: Extent, after: set<nat>)
    requires Taken(before, 1, e, after)
    ensures e.length == 1 && e.physicalStart in before && after == before - {e.physicalStart} && Consumed(before, after)
  {
    SpanGrows(e.physicalStart, 0);
    assert e.physicalStart in Span(e.physicalStart, 1);
  }
}
