/** The structures the program stores, field by field (ext4_bg.h, ext4_inode.h, ext4_extent.h,
    ext4_dentry.h, fat.h, stream-archiver.h), and the room they are given. */
module Structures {
  import opened Dentry
  import opened DirBlocks
  import opened Disk
  import opened ExtentTree
  import opened Fat
  import opened Geometry
  import opened InodeTable

  // --- Widths in bytes -----------------------------------------------------------------

  /** ext4_super_block */
  const SUPERBLOCK_BYTES: nat := 1024

  /** ext4_group_desc: three blocks, three counts and the flags, a block, four checksums and counts;
      then the high halves, with two checksums, and a reserved field. */
  const GROUP_DESC_BYTES: nat := (3 * 4 + 4 * 2 + 4 + 4 * 2) + (3 * 4 + 4 * 2 + 4 + 2 * 2 + 4)

  /** ext4_extent_header: magic, entries, max, depth, generation. */
  const NODE_HEADER_BYTES: nat := 2 + 2 + 2 + 2 + 4

  /** ext4_extent: block, length, the halves of the start. */
  const LEAF_BYTES: nat := 4 + 2 + 2 + 4

  /** ext4_extent_idx: block, the halves of the leaf, unused. */
  const INDEX_BYTES: nat := 4 + 4 + 2 + 2

  /** What an inode keeps for the root of its tree, 15 block numbers of old. */
  const ROOT_BYTES: nat := 15 * 4

  /** ext4_inode: mode and owner, size and times, group and links, blocks, flags and version; the root;
      then four words, eight halves and seven words. */
  const INODE_BYTES: nat := (2 * 2 + 5 * 4 + 2 * 2 + 3 * 4) + ROOT_BYTES + (4 * 4 + 8 * 2 + 7 * 4)

  /** ext4_dentry in front of the name: inode, rec_len, name_len. */
  const DIR_HEADER_BYTES: nat := 4 + 2 + 2

  // --- Extent trees and inodes ---------------------------------------------------------

  /** An extent tree is used to the full: four entries in an inode, and in a block as many as fit. */
  lemma NodesFilled(g: Geo)
    requires g.Valid()
    ensures LEAF_BYTES == INDEX_BYTES == EXTENT_ENTRY_SIZE
    ensures NODE_HEADER_BYTES + LEAF_BYTES * INODE_ENTRIES == ROOT_BYTES
    ensures NODE_HEADER_BYTES + LEAF_BYTES * MaxEntries(g) <= g.blockSize
    ensures g.blockSize < NODE_HEADER_BYTES + LEAF_BYTES * (MaxEntries(g) + 1)
  {
    hide Geo.GroupsHoldMetadata;
  }

  /** The fields of one inode do not reach into the next. */
  lemma InodeFieldsApart(g: Geo, a: nat, b: nat)
    requires g.Valid() && 0 < a < b && 0 < g.InodesPerGroup() && g.InodeGroup(b) < g.GroupCount()
    ensures InodeByte(g, a) + INODE_BYTES <= InodeByte(g, b)
  {
    hide Geo.GroupsHoldMetadata, Geo.InodesPerGroup, Geo.GroupCount, InodeByte, Geo.InodeGroup;
    InodesApart(g, a, b);
  }

  /** A record in a directory block has room for its fields and its name, and starts at a multiple of
      4 if the one before it does. */
  lemma RecordFits(name: seq<Byte>)
    ensures DIR_HEADER_BYTES + |name| <= RecLen(name) < DIR_HEADER_BYTES + |name| + 4 && RecLen(name) % 4 == 0
  {
  }

  // --- Superblocks and descriptor tables -----------------------------------------------

  /** The first byte of the superblock in a group, as write_sb_copy places it. */
  function SuperblockByte(g: Geo, num: nat): nat {
    g.blockSize * g.GroupStart(num) + if num == 0 && g.blockSize != 1024 then 1024 else 0
  }

  /** The first byte of descriptor k in the table of a group. */
  function DescriptorByte(g: Geo, num: nat, k: nat): nat {
    g.blockSize * (g.GroupStart(num) + 1) + k * GROUP_DESC_BYTES
  }

  /** The superblock is where ext4 looks for it, at byte 1024; its copies begin with their group; and
      all of them end in front of the descriptors. */
  lemma SuperblockFits(g: Geo, num: nat)
    requires g.Valid() && num < g.GroupCount()
    ensures SuperblockByte(g, 0) == 1024 && (num > 0 ==> SuperblockByte(g, num) == g.blockSize * g.GroupStart(num))
    ensures g.blockSize * g.GroupStart(num) <= SuperblockByte(g, num)
    ensures SuperblockByte(g, num) + SUPERBLOCK_BYTES <= DescriptorByte(g, num, 0)
  {
    hide Geo.GroupsHoldMetadata, Geo.GroupCount, Geo.BlocksPerGroup;
    assert g.GroupStart(0) == g.FirstDataBlock() by { assert g.BlocksPerGroup() * 0 == 0; }
    assert g.blockSize * (g.GroupStart(num) + 1) == g.blockSize * g.GroupStart(num) + g.blockSize;
  }

  /** Every descriptor lies in front of the block bitmap, and behind those before it. */
  lemma DescriptorsFit(g: Geo, num: nat, j: nat, k: nat)
    requires g.Valid() && num < g.GroupCount() && g.HasSbCopy(num) && j < k < g.GroupCount()
    ensures g.blockSize * (g.GroupStart(num) + 1) <= DescriptorByte(g, num, j)
    ensures DescriptorByte(g, num, j) + GROUP_DESC_BYTES <= DescriptorByte(g, num, k)
    ensures DescriptorByte(g, num, k) + GROUP_DESC_BYTES <= g.blockSize * g.BlockBitmapBlock(num)
  {
    hide Geo.GroupsHoldMetadata, Geo.GroupCount, Geo.GroupStart, Geo.HasSbCopy;
    TableHoldsAll(g.GroupCount(), g.blockSize, g.GdtBlockCount());
    Scaled(GROUP_DESC_BYTES, k + 1, g.GroupCount());
    var start := g.GroupStart(num) + 1;
    assert g.BlockBitmapBlock(num) == start + g.GdtBlockCount();
    assert g.blockSize * (start + g.GdtBlockCount()) == g.blockSize * start + g.blockSize * g.GdtBlockCount();
  }

  lemma TableHoldsAll(count: nat, size: nat, blocks: nat)
    requires 1024 <= size && blocks == CeilDiv(count, size / EXT4_64BIT_DESC_SIZE)
    ensures count * GROUP_DESC_BYTES <= size * blocks
  {
    hide Quotient;
    var n := size / EXT4_64BIT_DESC_SIZE;
    QuotientBounds(count + n - 1, n);
    assert CeilDiv(count, n) == Quotient(count + n - 1, n) by { CeilIsQuotient(count, n); }
    assert count <= n * blocks;
    Scaled(GROUP_DESC_BYTES, count, n * blocks);
    assert GROUP_DESC_BYTES * (n * blocks) == GROUP_DESC_BYTES * n * blocks;
    MulMonotone(blocks, GROUP_DESC_BYTES * n, size);
  }

  lemma CeilIsQuotient(a: nat, b: nat)
    requires 0 < b
    ensures CeilDiv(a, b) == Quotient(a + b - 1, b)
  {
  }

  /** The groups with a copy of superblock and descriptors are the first two and the last. */
  lemma CopiesAre(g: Geo, num: nat)
    requires g.Valid() && num < g.GroupCount()
    ensures g.HasSbCopy(num) <==> num == 0 || num == 1 || num == g.GroupCount() - 1
  {
    hide Geo.GroupsHoldMetadata, Geo.GroupCount;
  }

  // --- Elements of the archive ---------------------------------------------------------

  /** The bytes of an element, as the program stores it: three numbers and a gap that aligns the last,
      a number, a record, or the characters of a name. */
  function ElementBytes(item: Item): nat {
    match item
    case Reserved(size) => size
    case ExtentItem(_) => 4 + 2 + 2 + 4
    case CountItem(_) => 4
    case DentryItem(record) => |record|
    case NameItem(units) => 2 * |units|
  }

  /** Every element that is written has room, names included. */
  lemma ElementFits(item: Item, records: seq<Record>)
    requires item.NameItem? ==>
               0 < |records| && NameRecords(records[0]) <= |records| && item.units in NameSegments(records)
    ensures ElementBytes(item) <= SizeOf(item)
  {
  }

  /** So have a header, a 64-bit count, and the link of a page, a 64-bit pointer. */
  lemma HeadersFit()
    ensures 64 / 8 <= HEADER_SIZE && 64 / 8 <= PAGE_LINK_SIZE
  {
  }
}
