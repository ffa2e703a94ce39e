/** What the converter keeps in the clusters of the volume. */
module Disk {
  import opened Fat
  import opened Util

  type Byte = x: int | 0 <= x < 0x100
  type Unit = x: int | 0 <= x < 0x1_0000

  /** A 32-byte directory record (struct fat_dentry), kept as bytes. */
  type Record = r: seq<Byte> | |r| == 32 witness seq(32, _ => 0)

  /** An element of the stream archive; Reserved has been placed but not yet written. */
  datatype Item =
    | Reserved(size: nat)
    | ExtentItem(extent: Extent)
    | CountItem(count: nat)
    | DentryItem(record: Record)
    | NameItem(units: seq<Unit>)

  const PAGE_LINK_SIZE: nat := 8
  const HEADER_SIZE: nat := 8
  const EXTENT_SIZE: nat := 12
  const COUNT_SIZE: nat := 4
  const DENTRY_SIZE: nat := 32
  const NAME_SIZE: nat := 26

  function SizeOf(item: Item): nat {
    match item
    case Reserved(size) => size
    case ExtentItem(_) => EXTENT_SIZE
    case CountItem(_) => COUNT_SIZE
    case DentryItem(_) => DENTRY_SIZE
    case NameItem(_) => NAME_SIZE
  }

  /** What a page of the archive holds at one offset. */
  datatype Cell = HeaderCell(elementCount: nat) | ItemCell(item: Item)

  /** A leaf of an ext4 extent tree (struct ext4_extent); the start is split 32 + 16 bits. */
  datatype Ext4Extent = Ext4Extent(block: nat, len: nat, start: Halves)

  /** The twelve bytes behind a node's header are used as extents or as indices. */
  datatype NodeSlot = ExtentSlot(extent: Ext4Extent) | IndexSlot(block: nat, leaf: Halves)

  /** A node of an extent tree: its header and the slots that have been written. */
  datatype Node = Node(entries: nat, max: nat, depth: nat, slots: map<nat, NodeSlot>)

  /** An ext4 directory record; its length includes the space up to the next record. */
  datatype DirRecord = DirRecord(inode: nat, recLen: nat, name: seq<Byte>)

  /** The contents of one cluster: FAT directory records or file data as 32-byte records, a
      page of the archive with its link to the next page (0 for NULL), ext4 directory records
      by offset, a node of an extent tree, or the metadata of a block group. */
  datatype Cluster =
    | Data(records: seq<Record>)
    | Page(next: nat, cells: map<nat, Cell>)
    | DirBlock(entries: map<nat, DirRecord>)
    | TreeNode(node: Node)
    | GroupMetadata
}
