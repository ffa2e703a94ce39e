/** What becomes of an extent tree whose only index has been overwritten, when the program goes on
    (ext4_extent.cpp). */
module Overflow {
  import opened Dentry
  import opened Disk
  import opened ExtentTree
  import opened Fat
  import opened Geometry
  import opened InodeTable
  import opened Util

  // --- Where the next append goes ------------------------------------------------------

  /** append_to_extent_tree goes on with the block whose number is the length of the extent that
      stands where the index was; last_extent, and any reader, goes elsewhere. */
  lemma NextAppendFollowsLength(g: Geo, root: Node, e: Extent)
    requires g.Valid() && root.depth > 0 && root.entries == 1
    requires FAT_START_INDEX <= e.physicalStart < g.DataClusterCount() && e.length <= EXT4_MAX_INIT_EXTENT_LEN
    ensures var root' := WithNewIdxPath(root, ToExt4Extent(g, e));
            && Overflowed(root') && root'.entries == 1
            && FollowedBlock(root'.slots[0]) == e.length
            && ChildBlock(root'.slots[0]) == g.FatClToE4Blk(e.physicalStart) % U16 * U32 + e.length
  {
    hide Geo.GroupsHoldMetadata;
    assert SetLoHi48(g.FatClToE4Blk(e.physicalStart)) == Halves(g.FatClToE4Blk(e.physicalStart), 0);
  }

  // --- What it does there --------------------------------------------------------------

  /** The bytes of a cluster with file data. */
  ghost function BytesOf(records: seq<Record>): (bytes: seq<Byte>)
    ensures |bytes| == 32 * |records|
  {
    if records == [] then [] else BytesOf(records[..|records| - 1]) + records[|records| - 1]
  }

  function Word(bytes: seq<Byte>, at: nat): nat
    requires at + 2 <= |bytes|
  {
    LittleEndian(bytes[at], bytes[at + 1])
  }

  // The fields of ext4_extent_header, whatever the bytes are meant to be.

  function EntriesField(bytes: seq<Byte>): nat
    requires EXTENT_HEADER_SIZE <= |bytes|
  {
    Word(bytes, 2)
  }

  function MaxField(bytes: seq<Byte>): nat
    requires EXTENT_HEADER_SIZE <= |bytes|
  {
    Word(bytes, 4)
  }

  function DepthField(bytes: seq<Byte>): nat
    requires EXTENT_HEADER_SIZE <= |bytes|
  {
    Word(bytes, 6)
  }

  /** The bytes pass for a leaf with room for one more entry in the block. */
  predicate TakesEntry(bytes: seq<Byte>) {
    && EXTENT_HEADER_SIZE <= |bytes| && DepthField(bytes) == 0 && EntriesField(bytes) < MaxField(bytes)
    && EXTENT_ENTRY_SIZE * (EntriesField(bytes) + 2) <= |bytes|
  }

  /** The block after append_in_block has put the bytes of an extent into it. */
  function WithRawEntry(bytes: seq<Byte>, extent: seq<Byte>): (after: seq<Byte>)
    requires TakesEntry(bytes) && |extent| == EXTENT_ENTRY_SIZE
    ensures |after| == |bytes|
  {
    var at, n := EXTENT_ENTRY_SIZE * (EntriesField(bytes) + 1), EntriesField(bytes) + 1;
    bytes[..2] + [n % 0x100, n / 0x100] + bytes[4..at] + extent + bytes[at + EXTENT_ENTRY_SIZE..]
  }

  /** One more entry is counted, so the block is never what it was. */
  lemma RawEntryCounted(bytes: seq<Byte>, extent: seq<Byte>)
    requires TakesEntry(bytes) && |extent| == EXTENT_ENTRY_SIZE
    ensures var after, at := WithRawEntry(bytes, extent), EXTENT_ENTRY_SIZE * (EntriesField(bytes) + 1);
            && EntriesField(after) == EntriesField(bytes) + 1 && after[at..at + EXTENT_ENTRY_SIZE] == extent
            && (forall i :: 0 <= i < |bytes| && !(2 <= i < 4) && !(at <= i < at + EXTENT_ENTRY_SIZE) ==>
                  after[i] == bytes[i])
            && after != bytes
  {
    var after, n := WithRawEntry(bytes, extent), EntriesField(bytes) + 1;
    assert after[2] == n % 0x100 && after[3] == n / 0x100;
    assert n == n / 0x100 * 0x100 + n % 0x100;
  }

  /** When the lost extent is as long as the number of a block that holds file data, and the data
      happen to pass for a leaf with room, the next extent overwrites part of that file. */
  lemma OverflowCanHitFile(g: Geo, content: map<nat, Cluster>, root: Node, e: Extent, extent: seq<Byte>)
    requires g.Valid() && root.depth > 0 && root.entries == 1 && |extent| == EXTENT_ENTRY_SIZE
    requires FAT_START_INDEX <= e.physicalStart < g.DataClusterCount() && e.length <= EXT4_MAX_INIT_EXTENT_LEN
    requires g.firstDataClusterBlock <= e.length < g.blockCount
    requires var c := g.E4BlkToFatCl(e.length);
             c in content && content[c].Data? && TakesEntry(BytesOf(content[c].records))
    ensures var root' := WithNewIdxPath(root, ToExt4Extent(g, e));
            var c := g.E4BlkToFatCl(FollowedBlock(root'.slots[0]));
            && FAT_START_INDEX <= c < g.DataClusterCount() && g.FatClToE4Blk(c) == e.length
            && WithRawEntry(BytesOf(content[c].records), extent) != BytesOf(content[c].records)
  {
    hide Geo.GroupsHoldMetadata, TakesEntry, WithRawEntry, WithNewIdxPath, ToExt4Extent, FollowedBlock, ChildBlock;
    NextAppendFollowsLength(g, root, e);
    RawEntryCounted(BytesOf(content[g.E4BlkToFatCl(e.length)].records), extent);
  }

  /** A file that begins with the bytes 0, 0, 0, 0, 1 and then has a run of zeros is such data. */
  lemma AlmostZeroTakesEntry(records: seq<Record>)
    requires records != [] && records[0][4] == 1 && forall i :: 0 <= i < 8 && i != 4 ==> records[0][i] == 0
    ensures TakesEntry(BytesOf(records))
  {
    FirstBytes(records);
    assert BytesOf(records)[..8] == records[0][..8];
    assert forall i :: 0 <= i < 8 ==> BytesOf(records)[i] == BytesOf(records)[..8][i] == records[0][i];
  }

  lemma {:induction false} FirstBytes(records: seq<Record>)
    requires records != []
    ensures 32 <= |BytesOf(records)| && BytesOf(records)[..32] == records[0]
  {
    if |records| > 1 {
      FirstBytes(records[..|records| - 1]);
      assert BytesOf(records)[..32] == BytesOf(records[..|records| - 1])[..32];
    } else {
      assert BytesOf(records[..0]) == [] && BytesOf(records) == [] + records[0] == records[0];
    }
  }

  /** A file of 1024 bytes: 0, 0, 0, 0, 1 and zeros. */
  function AlmostZero(): seq<Record> {
    [seq(32, i => if i == 4 then 1 else 0)] + seq(31, _ => seq(32, _ => 0))
  }

  /** On a volume with 1024-byte blocks, an extent of 200 clusters that overwrites the index leads the
      next append to block 200. If that is cluster 102 of such a file, the file is changed. */
  lemma AlmostZeroFileIsHit(root: Node, e: Extent, extent: seq<Byte>)
    requires root.depth > 0 && root.entries == 1 && |extent| == EXTENT_ENTRY_SIZE
    requires FAT_START_INDEX <= e.physicalStart < 8902 && e.length == 200
    ensures var g, content := Geo(1024, 9000, 100), map[102 := Data(AlmostZero())];
            var c := g.E4BlkToFatCl(FollowedBlock(WithNewIdxPath(root, ToExt4Extent(g, e)).slots[0]));
            && g.Valid() && c in content && TakesEntry(BytesOf(content[c].records))
            && WithRawEntry(BytesOf(content[c].records), extent) != BytesOf(content[c].records)
  {
    hide TakesEntry, WithRawEntry, BytesOf, AlmostZero, WithNewIdxPath, ToExt4Extent, FollowedBlock;
    var g, content := Geo(1024, 9000, 100), map[102 := Data(AlmostZero())];
    assert g.Valid() && g.E4BlkToFatCl(200) == 102;
    AlmostZeroStarts();
    AlmostZeroTakesEntry(AlmostZero());
    NextAppendFollowsLength(g, root, e);
    OverflowCanHitFile(g, content, root, e, extent);
  }

  lemma AlmostZeroStarts()
    ensures AlmostZero() != [] && AlmostZero()[0][4] == 1
    ensures forall i :: 0 <= i < 8 && i != 4 ==> AlmostZero()[0][i] == 0
  {
  }

  /** The block may just as well be part of an inode table: for every inode of the first group there is
      a length of the lost extent with which the next append goes to the block that holds this inode,
      which may be the one whose tree has overflowed. */
  lemma OverflowCanHitInode(g: Geo, no: nat, root: Node, start: nat)
    requires g.Valid() && root.depth > 0 && root.entries == 1 && 0 < no <= g.InodesPerGroup()
    requires FAT_START_INDEX <= start < g.DataClusterCount()
    ensures exists length :: 1 <= length <= EXT4_MAX_INIT_EXTENT_LEN && FollowsToInode(g, no, root, start, length)
  {
    hide Geo.GroupsHoldMetadata, Geo.InodesPerGroup, Geo.GroupCount, Geo.InodeTableBlock, Geo.InodeTableBlocks,
         Geo.InodeGroup, InodeByte, Quotient, Geo.GroupStart, Geo.Overhead, FollowedBlock, ToExt4Extent, WithNewIdxPath;
    InodePlace(g, no);
    FirstGroup(g, no);
    GroupCountFits(g);
    InodeInTable(g, no);
    TableFits(g, 0);
    OverheadFits(g, 0);
    var length := Quotient(InodeByte(g, no), g.blockSize);
    BlockOfByte(InodeByte(g, no), g.blockSize, g.InodeTableBlock(0), g.InodeTableBlock(0) + g.InodeTableBlocks());
    TableBehindStart(g);
    InodeInOneBlock(g, no);
    NextAppendFollowsLength(g, root, Extent(0, length, start));
    assert FollowsToInode(g, no, root, start, length);
  }

  /** The append behind an overflow with an extent of this length goes to the block of this inode. */
  ghost predicate FollowsToInode(g: Geo, no: nat, root: Node, start: nat, length: nat)
    requires g.Valid() && root.entries > 0 && FAT_START_INDEX <= start && 0 < no && 0 < g.InodesPerGroup()
  {
    var root' := WithNewIdxPath(root, ToExt4Extent(g, Extent(0, length, start)));
    && Overflowed(root') && FollowedBlock(root'.slots[0]) == length
    && g.blockSize * length <= InodeByte(g, no)
    && InodeByte(g, no) + EXT4_INODE_SIZE <= g.blockSize * (length + 1)
  }

  lemma FirstGroup(g: Geo, no: nat)
    requires 0 < no <= g.InodesPerGroup()
    ensures g.InodeGroup(no) == 0
  {
  }

  lemma TableBehindStart(g: Geo)
    requires g.Valid()
    ensures 1 <= g.InodeTableBlock(0) && g.GroupStart(0) <= 1
  {
    hide Geo.GroupsHoldMetadata, Geo.GroupCount;
  }

  /** No inode crosses a block. */
  lemma InodeInOneBlock(g: Geo, no: nat)
    requires g.Valid() && 0 < no && 0 < g.InodesPerGroup()
    ensures var block := Quotient(InodeByte(g, no), g.blockSize);
            && g.blockSize * block <= InodeByte(g, no)
            && InodeByte(g, no) + EXT4_INODE_SIZE <= g.blockSize * (block + 1)
  {
    hide Geo.GroupsHoldMetadata, Geo.GroupCount, Geo.InodesPerGroup, Geo.InodeTableBlock, Geo.InodeGroup,
         Geo.InodeIndex, Quotient;
    var size, byte, k := g.blockSize, InodeByte(g, no), g.blockSize / EXT4_INODE_SIZE;
    var block := Quotient(byte, size);
    QuotientBounds(byte, size);
    Aligned(k, g.InodeTableBlock(g.InodeGroup(no)), g.InodeIndex(no), block);
  }

  lemma Aligned(k: nat, table: nat, index: nat, block: nat)
    requires var size := k * EXT4_INODE_SIZE;
             var byte := size * table + index * EXT4_INODE_SIZE;
             size * block <= byte < size * block + size
    ensures var size := k * EXT4_INODE_SIZE;
            size * table + index * EXT4_INODE_SIZE + EXT4_INODE_SIZE <= size * (block + 1)
  {
    var a, b := k * table + index, k * block;
    assert k * EXT4_INODE_SIZE * table + index * EXT4_INODE_SIZE == EXT4_INODE_SIZE * a;
    assert k * EXT4_INODE_SIZE * block == EXT4_INODE_SIZE * b;
    assert k * EXT4_INODE_SIZE * (block + 1) == EXT4_INODE_SIZE * (b + k);
  }
}
