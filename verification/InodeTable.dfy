/** Where inodes lie in the tables of their groups (ext4_bg.cpp). */
module InodeTable {
  import opened Geometry

  /** The first byte of the inode at this place in the table that starts with this block. */
  function ByteAt(size: nat, table: nat, index: nat): nat { size * table + index * EXT4_INODE_SIZE }

  /** The first byte of an inode on the device. */
  function InodeByte(g: Geo, no: nat): nat
    requires EXT4_64BIT_DESC_SIZE <= g.blockSize && 0 < no && 0 < g.InodesPerGroup()
  {
    ByteAt(g.blockSize, g.InodeTableBlock(g.InodeGroup(no)), g.InodeIndex(no))
  }

  /** The table of a group holds all its inodes, and is part of its metadata. */
  lemma TableFits(g: Geo, num: nat)
    requires g.Valid() && num < g.GroupCount()
    ensures g.InodesPerGroup() * EXT4_INODE_SIZE <= g.blockSize * g.InodeTableBlocks()
    ensures g.GroupStart(num) <= g.InodeTableBlock(num)
    ensures g.InodeTableBlock(num) + g.InodeTableBlocks() == g.GroupStart(num) + g.Overhead(num)
  {
    hide Geo.GroupsHoldMetadata, Geo.InodesPerGroup, Geo.GroupStart, Geo.GroupCount, Geo.GdtBlockCount;
    MetadataTiles(g, num);
    QuotientBounds(g.InodesPerGroup() * EXT4_INODE_SIZE + g.blockSize - 1, g.blockSize);
  }

  /** An inode lies in the inode table of its group. */
  lemma InodeInTable(g: Geo, no: nat)
    requires g.Valid() && 0 < no && 0 < g.InodesPerGroup() && g.InodeGroup(no) < g.GroupCount()
    ensures var table, byte := g.InodeTableBlock(g.InodeGroup(no)), InodeByte(g, no);
            g.blockSize * table <= byte && byte + EXT4_INODE_SIZE <= g.blockSize * (table + g.InodeTableBlocks())
  {
    hide Geo.GroupsHoldMetadata, Geo.InodesPerGroup, Geo.GroupCount, Geo.InodeTableBlock, Geo.InodeTableBlocks,
         Geo.InodeGroup, Geo.InodeIndex, ByteAt;
    var num := g.InodeGroup(no);
    TableFits(g, num);
    InodePlace(g, no);
    ByteInTable(g.blockSize, g.InodeTableBlock(num), g.InodeTableBlocks(), g.InodeIndex(no), g.InodesPerGroup());
  }

  lemma ByteInTable(size: nat, table: nat, blocks: nat, index: nat, count: nat)
    requires index < count && count * EXT4_INODE_SIZE <= size * blocks
    ensures size * table <= ByteAt(size, table, index)
    ensures ByteAt(size, table, index) + EXT4_INODE_SIZE <= size * (table + blocks)
  {
    assert size * (table + blocks) == size * table + size * blocks;
  }

  /** So every byte of an inode lies in a metadata block. */
  lemma InodeIsMetadata(g: Geo, no: nat, byte: nat)
    requires g.Valid() && 0 < no && 0 < g.InodesPerGroup() && g.InodeGroup(no) < g.GroupCount()
    requires InodeByte(g, no) <= byte < InodeByte(g, no) + EXT4_INODE_SIZE
    ensures g.IsMetadata(Quotient(byte, g.blockSize))
  {
    hide Geo.GroupsHoldMetadata, Geo.InodesPerGroup, Geo.GroupCount, Geo.InodeTableBlock, Geo.InodeTableBlocks,
         Geo.InodeGroup, InodeByte, Geo.GroupStart, Geo.Overhead, Quotient;
    var num := g.InodeGroup(no);
    TableFits(g, num);
    InodeInTable(g, no);
    BlockOfByte(byte, g.blockSize, g.InodeTableBlock(num), g.InodeTableBlock(num) + g.InodeTableBlocks());
  }

  lemma BlockOfByte(byte: nat, size: nat, first: nat, end: nat)
    requires 0 < size && size * first <= byte < size * end
    ensures first <= Quotient(byte, size) < end
  {
    hide Quotient;
    QuotientBounds(byte, size);
    var q := Quotient(byte, size);
    if q < first {
      assert size * (q + 1) == size * q + size;
      MulMonotone(size, q + 1, first);
    }
    if end <= q { MulMonotone(size, end, q); }
  }

  /** No two inodes share a byte. */
  lemma InodesApart(g: Geo, a: nat, b: nat)
    requires g.Valid() && 0 < a < b && 0 < g.InodesPerGroup() && g.InodeGroup(b) < g.GroupCount()
    ensures InodeByte(g, a) + EXT4_INODE_SIZE <= InodeByte(g, b)
  {
    hide Geo.GroupsHoldMetadata, Geo.InodesPerGroup, Geo.GroupCount, Geo.InodeTableBlock, Geo.InodeTableBlocks,
         Geo.InodeGroup, Geo.InodeIndex, Geo.GroupStart, Geo.Overhead, Geo.BlocksPerGroup;
    InodePlace(g, a);
    InodePlace(g, b);
    var per, j, k := g.InodesPerGroup(), g.InodeGroup(a), g.InodeGroup(b);
    if j == k {
      assert (g.InodeIndex(a) + 1) * EXT4_INODE_SIZE <= g.InodeIndex(b) * EXT4_INODE_SIZE;
    } else {
      if k < j {
        assert per * (k + 1) == per * k + per;
        MulMonotone(per, k + 1, j);
      }
      InodeInTable(g, a);
      TableFits(g, j);
      TableFits(g, k);
      GroupsAscend(g, j, k);
      MulMonotone(g.blockSize, g.InodeTableBlock(j) + g.InodeTableBlocks(), g.InodeTableBlock(k));
    }
  }
}
