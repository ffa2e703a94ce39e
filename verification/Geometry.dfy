/** Where the ext4 metadata lies, in blocks and in clusters (ext4_bg.cpp, fat.cpp, ext4.cpp). */
module Geometry {
  import opened Fat
  import opened Allocator

  const EXT4_MAX_BLOCKS_PER_GROUP: nat := 65528
  const EXT4_64BIT_DESC_SIZE: nat := 64
  const EXT4_INODE_SIZE: nat := 256
  const EXT4_INODE_RATIO: nat := 16384
  const EXT4_FIRST_NON_RSV_INODE: nat := 11

  function CeilDiv(a: nat, b: nat): nat
    requires 0 < b
  {
    (a + b - 1) / b
  }

  function Quotient(a: nat, b: nat): nat
    requires 0 < b
  {
    a / b
  }

  function Min(a: nat, b: nat): nat { if a < b then a else b }

  /** What the boot sector fixes: the block size (the FAT cluster size), the number of blocks,
      and the block the first data cluster lies in. */
  datatype Geo = Geo(blockSize: nat, blockCount: nat, firstDataClusterBlock: nat) {

    // init_ext4_sb
    function FirstDataBlock(): nat { if blockSize == 1024 then 1 else 0 }

    function BlocksPerGroup(): nat { Min(blockSize * 8, EXT4_MAX_BLOCKS_PER_GROUP) }

    function InodesPerGroup(): nat { Min(BlocksPerGroup() * blockSize / EXT4_INODE_RATIO, blockSize * 8) }

    /** The bounds on sizes: numbers fit in 32 bits. */
    predicate Sized() {
      && 1024 <= blockSize <= 65536 && blockSize % 1024 == 0
      && 0 < firstDataClusterBlock < blockCount < CLUSTER_ENTRY_LIMIT - 1
    }

    /** What is asked of the volume: besides, every block group is larger than its own metadata, which
        ext4.cpp:76-78 means to ensure. */
    ghost predicate Valid() {
      Sized() && GroupsHoldMetadata()
    }

    ghost predicate GroupsHoldMetadata()
      requires 1024 <= blockSize
    {
      forall i :: 0 <= i < GroupCount() ==>
        GroupStart(i) + Overhead(i) < blockCount && Overhead(i) < BlocksPerGroup()
    }

    // ext4_bg.cpp
    function GroupCount(): nat
      requires 0 < blockSize
    {
      CeilDiv(blockCount, BlocksPerGroup())
    }

    function GdtBlockCount(): nat
      requires EXT4_64BIT_DESC_SIZE <= blockSize
    {
      CeilDiv(GroupCount(), blockSize / EXT4_64BIT_DESC_SIZE)
    }

    function GroupStart(num: nat): nat { BlocksPerGroup() * num + FirstDataBlock() }

    function GroupBlockCount(num: nat): nat
      requires GroupStart(num) <= blockCount
    {
      Min(BlocksPerGroup(), blockCount - GroupStart(num))
    }

    function InodeTableBlocks(): nat
      requires 0 < blockSize
    {
      CeilDiv(InodesPerGroup() * EXT4_INODE_SIZE, blockSize)
    }

    /** s_backup_bgs: groups 1 and the last one, as far as they exist. */
    function BackupGroup(k: nat): nat
      requires 0 < blockSize && k < 2
    {
      if k == 0 then (if GroupCount() > 1 then 1 else 0)
      else if GroupCount() > 2 then GroupCount() - 1 else 0
    }

    predicate HasSbCopy(num: nat)
      requires 0 < blockSize
    {
      num == 0 || num == BackupGroup(0) || num == BackupGroup(1)
    }

    /** s_reserved_gdt_blocks is 0. */
    function Overhead(num: nat): nat
      requires EXT4_64BIT_DESC_SIZE <= blockSize
    {
      if HasSbCopy(num) then 3 + GdtBlockCount() + InodeTableBlocks() else 2 + InodeTableBlocks()
    }

    function BlockBitmapBlock(num: nat): nat
      requires EXT4_64BIT_DESC_SIZE <= blockSize
    {
      if HasSbCopy(num) then GroupStart(num) + 1 + GdtBlockCount() else GroupStart(num)
    }

    function InodeBitmapBlock(num: nat): nat
      requires EXT4_64BIT_DESC_SIZE <= blockSize
    {
      BlockBitmapBlock(num) + 1
    }

    function InodeTableBlock(num: nat): nat
      requires EXT4_64BIT_DESC_SIZE <= blockSize
    {
      BlockBitmapBlock(num) + 2
    }

    /** The group of an inode, and its place in the group. */
    function InodeGroup(no: nat): nat
      requires 0 < no && 0 < InodesPerGroup()
    {
      Quotient(no - 1, InodesPerGroup())
    }

    function InodeIndex(no: nat): nat
      requires 0 < no && 0 < InodesPerGroup()
    {
      (no - 1) % InodesPerGroup()
    }

    // fat.cpp
    function DataClusterCount(): nat
      requires firstDataClusterBlock <= blockCount
    {
      blockCount - firstDataClusterBlock + FAT_START_INDEX
    }

    function FatClToE4Blk(clusterNo: nat): nat
      requires FAT_START_INDEX <= clusterNo
    {
      (clusterNo - FAT_START_INDEX) + firstDataClusterBlock
    }

    /** 0 if the block is before the first data cluster. */
    function E4BlkToFatCl(block: nat): nat {
      var clusterNo := block + FAT_START_INDEX - firstDataClusterBlock;
      if clusterNo < FAT_START_INDEX then 0 else clusterNo
    }

    /** The block is part of a group's metadata. */
    ghost predicate IsMetadata(block: nat)
      requires EXT4_64BIT_DESC_SIZE <= blockSize
    {
      exists i :: 0 <= i < GroupCount() && GroupStart(i) <= block < GroupStart(i) + Overhead(i)
    }

    /** The group of a block. */
    function GroupOf(block: nat): nat
      requires 0 < blockSize && FirstDataBlock() <= block
    {
      Quotient(block - FirstDataBlock(), BlocksPerGroup())
    }
  }

  /** Cluster and block addresses translate into one another. */
  lemma AddressRoundTrip(g: Geo, c: nat, b: nat)
    requires g.Valid()
    ensures FAT_START_INDEX <= c ==> g.E4BlkToFatCl(g.FatClToE4Blk(c)) == c
    ensures FAT_START_INDEX <= c < g.DataClusterCount() <==>
              FAT_START_INDEX <= c && g.firstDataClusterBlock <= g.FatClToE4Blk(c) < g.blockCount
    ensures g.E4BlkToFatCl(b) == 0 <==> b < g.firstDataClusterBlock
    ensures g.E4BlkToFatCl(b) != 0 ==> FAT_START_INDEX <= g.E4BlkToFatCl(b) && g.FatClToE4Blk(g.E4BlkToFatCl(b)) == b
  {
  }

  /** The superblock copy, the descriptor table, both bitmaps and the inode table lie side by
      side at the start of a group and fill its overhead exactly. */
  lemma MetadataTiles(g: Geo, num: nat)
    requires EXT4_64BIT_DESC_SIZE <= g.blockSize
    ensures if g.HasSbCopy(num)
            then g.BlockBitmapBlock(num) == (g.GroupStart(num) + 1) + g.GdtBlockCount()
            else g.BlockBitmapBlock(num) == g.GroupStart(num)
    ensures g.InodeBitmapBlock(num) == g.BlockBitmapBlock(num) + 1
    ensures g.InodeTableBlock(num) == g.InodeBitmapBlock(num) + 1
    ensures g.InodeTableBlock(num) + g.InodeTableBlocks() == g.GroupStart(num) + g.Overhead(num)
  {
  }

  /** The extent that create_block_group_meta_extents stores for a group. */
  function MetaExtent(g: Geo, num: nat): Extent
    requires g.Sized()
  {
    var start := g.E4BlkToFatCl(g.GroupStart(num));
    if start != 0 then Extent(0, g.Overhead(num), start)
    else
      var end := g.E4BlkToFatCl(g.GroupStart(num) + g.Overhead(num));
      if end != 0 then Extent(0, end - FAT_START_INDEX, FAT_START_INDEX) else Extent(0, 0, 0)
  }

  /** create_block_group_meta_extents, with the sentinel at the end. Its exit for metadata that does
      not fit in 16 bits is never taken, whatever the last group is like. */
  method CreateBlockGroupMetaExtents(g: Geo) returns (extents: seq<Extent>)
    requires g.Sized()
    ensures MetaExtents(g, extents)
  {
    extents := [];
    var i := 0;
    while i < g.GroupCount()
      invariant 0 <= i <= g.GroupCount() && |extents| == i
      invariant forall j :: 0 <= j < i ==> extents[j] == MetaExtent(g, j) && g.Overhead(j) <= 0xFFFF
    {
      var overhead := g.Overhead(i);
      if overhead > 0xFFFF {
        OverheadFits(g, i);
        assert false;
      }
      var start := g.GroupStart(i);
      var startCluster := g.E4BlkToFatCl(start);
      if startCluster != 0 {
        extents := extents + [Extent(0, overhead, startCluster)];
      } else {
        var endCluster := g.E4BlkToFatCl(start + overhead);
        if endCluster != 0 {
          extents := extents + [Extent(0, endCluster - FAT_START_INDEX, FAT_START_INDEX)];
        } else {
          extents := extents + [Extent(0, 0, 0)];
        }
      }
      i := i + 1;
    }
    extents := extents + [Extent(0, 1, g.DataClusterCount())];
  }

  /** The extents, as create_block_group_meta_extents returns them. */
  ghost predicate MetaExtents(g: Geo, extents: seq<Extent>)
    requires g.Sized()
  {
    && |extents| == g.GroupCount() + 1
    && extents[g.GroupCount()] == Extent(0, 1, g.DataClusterCount())
    && (forall i :: 0 <= i < g.GroupCount() ==> extents[i] == MetaExtent(g, i) && g.Overhead(i) <= 0xFFFF)
  }

  /** The metadata of a group takes 3076 blocks at most: less than any group, if it is not the last. */
  lemma OverheadFits(g: Geo, num: nat)
    requires g.Sized()
    ensures g.Overhead(num) <= 3076 < g.BlocksPerGroup()
  {
    hide Geo.GroupCount, Geo.InodesPerGroup, Geo.HasSbCopy;
    GroupCountFits(g);
    InodesPerGroupBounds(g);
    CeilDivAtMost(g.GroupCount(), g.blockSize / EXT4_64BIT_DESC_SIZE, 2048);
    MulMonotone(g.blockSize, g.BlocksPerGroup(), 65536);
    CeilDivAtMost(g.InodesPerGroup() * EXT4_INODE_SIZE, g.blockSize, 1025);
  }

  lemma CeilDivAtMost(a: nat, b: nat, c: nat)
    requires 0 < b && a <= b * c
    ensures CeilDiv(a, b) <= c
  {
    QuotientBounds(a + b - 1, b);
    if c < CeilDiv(a, b) {
      MulMonotone(b, c + 1, CeilDiv(a, b));
    }
  }

  /** Only the last group can be too small: that it holds its metadata is all that is asked of a
      volume of sensible size. */
  lemma LastGroupDecides(g: Geo)
    requires g.Sized()
    ensures 0 < g.GroupCount()
    ensures g.Valid() <==> g.GroupStart(g.GroupCount() - 1) + g.Overhead(g.GroupCount() - 1) < g.blockCount
  {
    hide Geo.GroupCount, Geo.Overhead, Geo.BlocksPerGroup;
    GroupCountFits(g);
    var last := g.GroupCount() - 1;
    OverheadFits(g, last);
    forall i | 0 <= i < last
      ensures g.GroupStart(i) + g.Overhead(i) < g.GroupStart(last) && g.Overhead(i) < g.BlocksPerGroup()
    {
      OverheadFits(g, i);
      MulMonotone(g.BlocksPerGroup(), i + 1, last);
      NextMultiple(g.BlocksPerGroup(), i);
    }
  }

  /** A volume whose last group has 7 blocks, and metadata behind the end of the volume. */
  lemma LastGroupTooSmall()
    ensures var g := Geo(1024, 8200, 100);
            && g.Sized() && !g.Valid() && g.GroupCount() == 2 && g.GroupBlockCount(1) == 7
            && g.InodeTableBlock(1) + g.InodeTableBlocks() == 8325
  {
    var g := Geo(1024, 8200, 100);
    assert g.GroupCount() == 2 && g.InodeTableBlocks() == 128 && g.GroupStart(1) + g.Overhead(1) == 8325;
  }

  lemma GroupsAscend(g: Geo, j: nat, k: nat)
    requires g.Valid() && j < k < g.GroupCount()
    ensures g.GroupStart(j) + g.Overhead(j) < g.GroupStart(j) + g.BlocksPerGroup() <= g.GroupStart(k)
  {
    MulMonotone(g.BlocksPerGroup(), j + 1, k);
    assert g.BlocksPerGroup() * (j + 1) == g.BlocksPerGroup() * j + g.BlocksPerGroup();
  }

  lemma MulMonotone(n: nat, a: nat, b: nat)
    requires a <= b
    ensures n * a <= n * b
  {
  }

  /** They come out sorted and disjoint, so sorting them changes nothing, and closed by the
      sentinel: just what the allocator and the splitter ask for. */
  lemma MetaExtentsWellFormed(g: Geo, extents: seq<Extent>)
    requires g.Valid() && MetaExtents(g, extents)
    ensures WellFormedBlocked(extents, g.DataClusterCount())
  {
    forall k | 0 <= k < g.GroupCount()
      ensures extents[k].physicalStart < g.DataClusterCount() && extents[k].length <= 0xFFFF
      ensures extents[k].End() <= g.DataClusterCount()
    {
    }
    forall j, k | 0 <= j < k < |extents|
      ensures extents[j].End() <= extents[k].physicalStart
      ensures extents[k].length == 0 ==> extents[j].End() < extents[k].physicalStart || extents[k].physicalStart == 0
    {
      if k < g.GroupCount() { GroupsAscend(g, j, k); }
    }
  }

  /** In the data area the blocked clusters are precisely the metadata blocks. */
  lemma BlockedIsMetadata(g: Geo, extents: seq<Extent>, c: nat)
    requires g.Valid() && MetaExtents(g, extents)
    requires FAT_START_INDEX <= c < g.DataClusterCount()
    ensures InBlocked(extents, c) <==> g.IsMetadata(g.FatClToE4Blk(c))
  {
    var b := g.FatClToE4Blk(c);
    forall i | 0 <= i < g.GroupCount()
      ensures extents[i].physicalStart <= c < extents[i].End() <==>
                g.GroupStart(i) <= b < g.GroupStart(i) + g.Overhead(i)
    {
    }
  }

  /** The blocks begin, ..., end - 1 lie in this block group, behind its metadata. */
  ghost predicate InsideGroup(g: Geo, num: nat, begin: nat, end: nat)
    requires 1024 <= g.blockSize
  {
    && begin < end && num < g.GroupCount() && g.GroupStart(num) < g.blockCount
    && g.GroupStart(num) + g.Overhead(num) <= begin
    && end <= g.GroupStart(num) + g.GroupBlockCount(num)
  }

  /** What add_extent_to_block_bitmap assumes. */
  ghost predicate InsideOneGroup(g: Geo, begin: nat, end: nat)
    requires 1024 <= g.blockSize
  {
    g.FirstDataBlock() <= begin && InsideGroup(g, g.GroupOf(begin), begin, end)
  }

  /** A run of clusters that avoids all metadata never crosses a block group. */
  lemma NoExtentCrossesGroups(g: Geo, extents: seq<Extent>, e: Extent)
    requires g.Valid() && MetaExtents(g, extents)
    requires FAT_START_INDEX <= e.physicalStart && 0 < e.length && e.End() <= g.DataClusterCount()
    requires forall c :: e.physicalStart <= c < e.End() ==> !InBlocked(extents, c)
    ensures InsideOneGroup(g, g.FatClToE4Blk(e.physicalStart), g.FatClToE4Blk(e.physicalStart) + e.length)
  {
    hide MetaExtents, InBlocked, Geo.GroupsHoldMetadata, Geo.GroupCount, Geo.Overhead, Geo.BlocksPerGroup, Geo.GroupOf,
         Geo.GroupStart, Geo.IsMetadata;
    var begin := g.FatClToE4Blk(e.physicalStart);
    var num := g.GroupOf(begin);
    GroupOfBounds(g, begin);
    StartsBehindMetadata(g, extents, e.physicalStart, num);
    EndsBeforeNextGroup(g, extents, e, num);
  }

  /** A cluster outside the blocked extents is not one of the first of its group. */
  lemma StartsBehindMetadata(g: Geo, extents: seq<Extent>, c: nat, num: nat)
    requires g.Valid() && MetaExtents(g, extents) && FAT_START_INDEX <= c < g.DataClusterCount()
    requires num < g.GroupCount() && g.GroupStart(num) <= g.FatClToE4Blk(c) && !InBlocked(extents, c)
    ensures g.GroupStart(num) + g.Overhead(num) <= g.FatClToE4Blk(c)
  {
    hide MetaExtents, InBlocked, Geo.GroupsHoldMetadata, Geo.GroupCount, Geo.Overhead, Geo.GroupStart;
    BlockedIsMetadata(g, extents, c);
  }

  /** A run outside the blocked extents does not reach the start of the next group. */
  lemma EndsBeforeNextGroup(g: Geo, extents: seq<Extent>, e: Extent, num: nat)
    requires g.Valid() && MetaExtents(g, extents)
    requires FAT_START_INDEX <= e.physicalStart && e.End() <= g.DataClusterCount()
    requires g.FatClToE4Blk(e.physicalStart) < g.GroupStart(num + 1)
    requires forall c :: e.physicalStart <= c < e.End() ==> !InBlocked(extents, c)
    ensures g.FatClToE4Blk(e.physicalStart) + e.length <= g.GroupStart(num + 1)
  {
    hide MetaExtents, InBlocked, Geo.GroupsHoldMetadata, Geo.GroupCount, Geo.Overhead, Geo.GroupStart;
    var next := g.GroupStart(num + 1);
    if next < g.FatClToE4Blk(e.physicalStart) + e.length {
      GroupExists(g, num + 1);
      var c := g.E4BlkToFatCl(next);
      assert g.FatClToE4Blk(c) == next && !InBlocked(extents, c);
      StartsBehindMetadata(g, extents, c, num + 1);
    }
  }

  lemma QuotientBounds(a: nat, n: nat)
    requires 0 < n
    ensures n * Quotient(a, n) <= a < n * Quotient(a, n) + n
  {
  }

  /** ceildiv rounds up. */
  lemma CeilDivIs(a: nat, b: nat)
    requires 0 < b
    ensures b * CeilDiv(a, b) - b < a <= b * CeilDiv(a, b)
  {
    QuotientBounds(a + b - 1, b);
  }

  /** There are as many groups as all blocks of the volume need, and no more. */
  lemma GroupsAreFew(g: Geo)
    requires g.Sized()
    ensures g.BlocksPerGroup() * g.GroupCount() - g.BlocksPerGroup() < g.blockCount
    ensures g.blockCount <= g.BlocksPerGroup() * g.GroupCount()
  {
    hide Geo.BlocksPerGroup;
    GroupsNotEmpty(g);
    CeilDivIs(g.blockCount, g.BlocksPerGroup());
  }

  lemma BelowCeilDiv(q: nat, n: nat, a: nat)
    requires 0 < n && n * q < a
    ensures q < CeilDiv(a, n)
  {
    var c := CeilDiv(a, n);
    QuotientBounds(a + n - 1, n);
    if c <= q {
      MulMonotone(n, c, q);
    }
  }

  lemma GroupExists(g: Geo, num: nat)
    requires g.Valid() && g.GroupStart(num) < g.blockCount
    ensures num < g.GroupCount() && 0 < g.Overhead(num)
  {
    BelowCeilDiv(num, g.BlocksPerGroup(), g.blockCount);
  }

  lemma GroupOfBounds(g: Geo, block: nat)
    requires g.Valid() && g.FirstDataBlock() <= block < g.blockCount
    ensures var num := g.GroupOf(block);
            && num < g.GroupCount()
            && g.GroupStart(num) <= block < g.GroupStart(num + 1) == g.GroupStart(num) + g.BlocksPerGroup()
  {
    hide Geo.GroupsHoldMetadata, Geo.GroupCount, Geo.Overhead, Geo.BlocksPerGroup, Quotient;
    var n := g.BlocksPerGroup();
    GroupsNotEmpty(g);
    QuotientBounds(block - g.FirstDataBlock(), n);
    var num := g.GroupOf(block);
    NextMultiple(n, num);
    GroupExists(g, num);
  }

  lemma GroupsNotEmpty(g: Geo)
    requires 1024 <= g.blockSize
    ensures 0 < g.BlocksPerGroup()
  {
  }

  lemma NextMultiple(n: nat, k: nat)
    ensures n * (k + 1) == n * k + n
  {
  }

  /** There are never too many groups for a 16-bit counter. */
  lemma GroupCountFits(g: Geo)
    requires g.Sized()
    ensures 0 < g.GroupCount() <= 0x8000 && g.blockCount <= g.GroupStart(g.GroupCount())
  {
    hide Geo.GroupsHoldMetadata;
    var n, count := g.BlocksPerGroup(), g.GroupCount();
    QuotientBounds(g.blockCount + n - 1, n);
    assert n >= 8192;
    if count > 0x8000 {
      MulMonotone(n, 0x8001, count);
    }
  }

  /** In its own group, a block is metadata if and only if it is one of the first. */
  lemma MetadataOfGroup(g: Geo, num: nat, b: nat)
    requires g.Valid() && num < g.GroupCount() && g.GroupStart(num) <= b < g.GroupStart(num) + g.BlocksPerGroup()
    ensures g.IsMetadata(b) <==> b < g.GroupStart(num) + g.Overhead(num)
  {
    hide Geo.GroupStart, Geo.Overhead, Geo.GroupCount, Geo.BlocksPerGroup;
    forall i | 0 <= i < g.GroupCount() && i != num
      ensures !(g.GroupStart(i) <= b < g.GroupStart(i) + g.Overhead(i))
    {
      if i < num { GroupsAscend(g, i, num); } else { GroupsAscend(g, num, i); }
    }
  }

  /** Every group has inodes, at least as many as are reserved, and a bitmap block for them. */
  lemma InodesPerGroupBounds(g: Geo)
    requires g.Sized()
    ensures 512 <= g.InodesPerGroup() <= 8 * g.blockSize
    ensures g.InodesPerGroup() * EXT4_INODE_RATIO <= g.BlocksPerGroup() * g.blockSize
  {
    hide Geo.GroupsHoldMetadata;
    assert g.BlocksPerGroup() >= 8192;
    MulMonotone(g.BlocksPerGroup(), 1024, g.blockSize);
  }

  lemma InodePlace(g: Geo, no: nat)
    requires 0 < no && 0 < g.InodesPerGroup()
    ensures g.InodesPerGroup() * g.InodeGroup(no) + g.InodeIndex(no) + 1 == no
    ensures g.InodeIndex(no) < g.InodesPerGroup()
  {
  }

  /** Inode numbers fit in 32 bits. */
  lemma InodeCountFits(g: Geo)
    requires g.Valid()
    ensures g.GroupCount() * g.InodesPerGroup() < 0x8000_0000
  {
    hide Geo.GroupsHoldMetadata, Geo.InodesPerGroup, Geo.BlocksPerGroup;
    InodesPerGroupBounds(g);
    var count, per, n := g.GroupCount(), g.InodesPerGroup(), g.BlocksPerGroup();
    BlocksPerGroupBound(g);
    QuotientBounds(g.blockCount + n - 1, n);
    assert n * count <= 0x1001_0000;
    Scaled(count, per * EXT4_INODE_RATIO, n * g.blockSize);
    Rearranged(count, per, n, g.blockSize);
    MulMonotone(n * count, g.blockSize, 65536);
  }

  lemma BlocksPerGroupBound(g: Geo)
    requires 1024 <= g.blockSize
    ensures 0 < g.BlocksPerGroup() <= 65528
  {
  }

  lemma Scaled(k: nat, a: nat, b: nat)
    requires a <= b
    ensures k * a <= k * b
  {
    MulMonotone(k, a, b);
  }

  lemma Rearranged(count: nat, per: nat, n: nat, size: nat)
    ensures count * (per * EXT4_INODE_RATIO) == count * per * EXT4_INODE_RATIO
    ensures count * (n * size) == n * count * size
  {
  }
}
