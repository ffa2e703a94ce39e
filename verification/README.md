# A verified model of ofs-convert

ofs-convert turns a FAT32 volume into an ext4 file system in place. It works in two phases.
Phase one walks the FAT directory tree, moves every cluster that lies where ext4 needs its block
group headers, and prints the tree into an archive that is kept in free clusters of the same
volume. Phase two writes the block groups, reads the archive back and builds inodes, extent trees
and directory blocks from it, partly in the old clusters of the directories. At no moment may a
cluster be overwritten whose contents are still needed.

This project models both phases in Dafny, statement by statement where the program works by
changing state, and proves what the conversion is for. `Conversion.Convert` puts everything
together. What a FAT volume holds is defined apart from the program: `FatReading.FatEntries` reads
a directory as the FAT file system defines it (long names in complete sets, labels skipped), and
`Conversion.FatVolume` says that a sound volume holds a tree of such entries. The program reads the
same tree if and only if there is nothing stray in a directory, that is, no low attribute bit
outside of long names, and no lone short name that begins with the byte 5 or has a space in it
(`FatTree.TreeReadRightIffNoStray`). `Convert` is about the tree the program reads, and says that it
is the tree of the volume when nothing is stray. Then one of three things happens:

* the program exits because the clusters or the inodes are used up, and no file of the tree it read
  has lost its contents: in phase one every used cluster is still as it was, and in phase two every
  file has its contents at its new extents. It does not happen when there are inodes for all entries
  and as many free clusters as `Conversion.ClustersNeeded` says: pages for the archive, filled one
  after the other, a new place for every used cluster where a block group header comes, and four
  clusters for each entry and seven more;
* an extent tree overflows. The program does not notice: it overwrites the only index of the tree
  and goes on. Up to that moment no file has lost its contents, and the model ends there
  (`Derailed`). It happens only if a file has more extents, or a directory takes more blocks, than
  fit in one block (`Ext4Tree.DirFits`); when they fit, it does not happen. The next extent of that
  inode goes to the block whose number is the length of the lost extent, which can be part of a file
  or of an inode table (`Overflow`);
* the volume is converted, and every file and directory has fitted: a reader that starts at the root
  inode and follows extent trees and directory records finds exactly the tree, with inode numbers
  12, 13, ... in preorder, converted names, sizes and link counts, and `lost+found`; every logical
  block of a file, looked up from its inode, holds what the corresponding cluster of the FAT chain
  held, and there is no other block (`Payload.FilesRead`); what has been registered is exactly the
  disjoint union of what the inodes own, their contents and the blocks of their extent trees, so no
  block is lost or taken twice; the block bitmaps mark exactly the metadata, what has been registered
  and what lies beyond a group's end, the inode bitmaps exactly the inodes in use; every group's free
  counts and directory count are right. The superblock's count of free blocks is the number of blocks
  that are neither metadata nor registered. Its count of free inodes is right exactly if blocks have
  no more than 16384 bytes or fewer than 65536 inodes are left (`Conversion.InodesShown`).

The exit for block group metadata that does not fit in 16 bits is never taken
(`Geometry.OverheadFits`).

## How it is built

| files | part of the program |
|---|---|
| `Fat`, `Allocator` | clusters and the bump allocator |
| `Disk`, `Archive`, `Archiver` | the volume and the paged stream archive on it |
| `Extents`, `Aggregator` | chains to extents, splitting and resettling |
| `Dentry`, `ExtentIterator`, `DirReader`, `Tree`, `StreamWriter`, `Traverse` | reading directories and printing the tree |
| `FatRecord`, `FatReading`, `FatTree` | not the program's: what a FAT record, directory and tree hold, and when the program reads the same |
| `Util`, `Bitmap`, `Geometry`, `BlockGroups`, `InodeTable` | split counters, bitmaps, group layout and accounting |
| `Structures` | the program's structures field by field, and that they have room where they are put |
| `Names`, `DirBlocks`, `ExtentTree`, `Ext4`, `Ext4Tree`, `Builder` | names, directory blocks, extent trees, inodes, building the ext4 tree |
| `Overflow` | where an overflowed extent tree leads the program next |
| `RepairedTree` | not the program's: the extent tree with the index path as it is meant to be |
| `Payload`, `Conversion` | file contents across both phases, and the whole run |

A file's contents are followed through a ghost map, `Volume.payload`: the clusters that must
survive and what they hold. In phase one it only grows (`Spent`, `Later`). In phase two `final` is
the part that can no longer change, and `Between` says that a step writes, registers or finishes
nothing but its own clusters and newly allocated ones; `owner` is the inode that each registered
cluster belongs to. The ext4 structures are judged by readers
that know nothing of how they were built: `Leaves` follows an extent tree of any depth, `MapBlock`
takes an extent of more than 32768 blocks for an unwritten one, `Walk` follows a chain of directory
records, `Decode` reads UTF-8 as section 3 of RFC 3629 defines it. What a FAT record says, its first
cluster, length, attributes, characters and case, is defined in `FatRecord` by its byte offsets, with
writers for them; the program's reading is proved to agree.

`exit(1)` becomes a failure outcome. The clusters of a volume are typed: file data and FAT records,
pages of the archive, directory blocks, extent tree nodes, group metadata. Sizes are the byte sizes
of the program's structures, and the places of archive elements and directory records are byte
offsets, which are proved not to overlap. What is asked of a FAT volume is `Conversion.FatVolume`,
and that the program finds its way through it `Conversion.ReadAs`; `EmptyVolumeIsSound` shows a
volume that meets both, `SoundVolumeIsRead` that the first is enough when nothing is stray, and
`EmptyVolumeHasEnough` that the former volume is converted.

What a step uses up is counted from one moment to the next, whether it succeeds or not: `Uses` counts
slots of the archive and clusters that have moved, `Spending` clusters and inode numbers.

## Where the program falls short of its intent

* `is_lfn` (`fat.cpp:49-51`) takes any of the four low attribute bits for the mark of a long name. A
  volume label, and a read-only, hidden or system file with a short name only, is taken for part of a
  long name, and the records behind it are read wrongly (`FatReading.ReadRightIffNoStray`). A
  read-only file before another one disappears, and the other gets a name made of its record
  (`FatReading.ReadOnlyFileIsLost`, `Conversion.ReadOnlyFileIsMissed`).
* A first byte of 5 in a short name stands for E5; `read_short_name` copies it as it is. It also ends
  name and extension at the first space, though FAT only fills them up with spaces at the end: `A B`
  becomes `A` (`FatRecord.NameCutAtSpace`). All other short names are read right
  (`FatRecord.ShortNameReadIff`).
* `append_to_new_idx_path` never enters its loop and overwrites the last index, so an inode's tree
  is right exactly as long as its extents fit in one block (`ExtentTree.TreeRightIffItFits`). With
  1024-byte blocks the 85th extent is lost together with the 84 before it
  (`ExtentTree.EightyFiveExtents`). With a working path the same algorithm holds any number of
  extents (`RepairedTree.RepairedTreeHoldsAll`).
* The next append follows the overwritten index to the block whose number is the length of the lost
  extent. If that block belongs to a file whose bytes pass for a node with room, part of the file is
  overwritten (`Overflow.OverflowCanHitFile`, `Overflow.AlmostZeroFileIsHit`). The block may also be one
  of an inode table, even the one with the inode itself (`Overflow.OverflowCanHitInode`).
* `finalize_block_groups_on_disk` adds up the groups' free inodes with `from_lo_hi` (`ext4_bg.cpp:218`)
  on two 16-bit halves, where only the 32-bit version is declared (`util.h:10`): the high half is
  shifted out of the sum. The superblock's count is right exactly if no group has 65536 or more free
  inodes (`BlockGroups.LowCountsRight`), which holds up to blocks of 16384 bytes, and above them
  exactly if fewer than 65536 inodes are left (`BlockGroups.CountsFitIff`). With 32768-byte blocks and
  262101 free inodes it says 131029 (`BlockGroups.InodeCountCutShort`). The groups' free blocks always
  fit in the low half.
* A stretched `rec_len` is right exactly if the new length is below 65536
  (`DirBlocks.FinishPacked`); with 65536-byte blocks a record that is alone gets length 0
  (`DirBlocks.HugeBlockUnreadable`). Phase two is modelled for blocks up to 32768 bytes.
* A name that does not fit is not simply cut: a character that does not fit ends its 13-unit
  segment, and later segments may still add to the name. It is read back in full exactly if
  everything fits and no unit is a surrogate (`Names.NameRoundTrip`); `Names.SurrogateUnreadable` and
  `Names.LongNameCutShort` are names that are not.
* The allocator never uses the cluster behind a block group header, and a request that runs into
  the end of the volume fails even though part of it could have been met; `AllocateExtent` says
  exactly when.
* `ext4.cpp:76-78` means to give up a last block group that is too small but changes nothing. Such a
  volume has metadata behind its end (`Geometry.LastGroupTooSmall`). That the last group is larger
  than its metadata is all that `Geo.Valid` asks beside sizes (`Geometry.LastGroupDecides`).
* `metadata_reader.cpp:118` and `metadata_reader.cpp:133` do not mask the high four bits of a FAT
  entry, `fat.cpp:35-37` does. A sound volume (`FatVolume`) has them zero.

## Model

| member | source | states |
|---|---|---|
| Allocator.ExtentAllocator.constructor | extent-allocator.cpp:25-47 | the bitmap shows exactly the reserved and used clusters; what may ever be handed out is what is free and neither in a blocked extent nor just behind one |
| Allocator.ExtentAllocator.CanBeUsed | extent-allocator.cpp:53-66 | each probe advances by a cluster or past a blocked extent, finds exactly the available clusters, and exits only when none is left |
| Allocator.ExtentAllocator.ProbeUntilUsable | extent-allocator.cpp:69 | the loop ends, at the first available cluster or at the exit |
| Allocator.ExtentAllocator.AllocateExtent | extent-allocator.cpp:68-80 | the result is the front of what is available, as long as the request and the run allow; the program exits if and only if too few clusters are left and they run up to the end, and then all of them are marked used |
| Allocator.FrontOrStarved | extent-allocator.cpp:68-80 | the exit in the middle of a request happens exactly when the request cannot be met before the end of the volume |
| Allocator.StarvedIsFew | extent-allocator.cpp:68-80 | a request for n clusters is met whenever n are available |
| Allocator.NextClusterIsBlocked | extent-allocator.cpp:58-59 | jumping over a blocked extent, even the dummy one, passes no available cluster |
| Allocator.ConsumedTransitive | extent-allocator.cpp:68-80 | clusters taken later lie behind all clusters taken before, over any run |
| Archive.AddrInjective | stream-archiver.cpp:34-46 | no two elements or headers of the archive share an address |
| Archive.WithCellKeepsStored | stream-archiver.cpp:15-47 | writing one element or header leaves all others, and the chain of pages, as they were |
| Archive.OtherClustersKeepStored | stream-archiver.cpp:9-13 | the archive depends on its pages only |
| Archive.CursorStable | stream-archiver.cpp:27-47 | a copied cursor keeps its place while the archive grows |
| Archive.SlotAfterCursor | stream-archiver.cpp:34-46 | a cursor's own offset and the page link lead to the next element, also across pages |
| Archive.ItemAt | stream-archiver.cpp:46 | an element is read back as it was written last |
| Archive.StoredIsFilled | stream-archiver.cpp:34-43 | pages are filled before new ones are linked: no page but the last has fewer slots than there is room for the largest elements |
| Archiver.Volume.AllocatePage | stream-archiver.cpp:9-13 | a page comes out of the available clusters |
| Archiver.Volume.Claim | extent-allocator.cpp:68-80 | allocated clusters are counted as payload and no payload is lost; on failure there were fewer than asked for, and no available cluster is left |
| Archiver.Volume.CopyClusters | metadata_reader.cpp:73 | the target clusters hold what the source clusters held, nothing else changes |
| Archiver.Volume.OverwriteMetadata | ext4_bg.cpp:127-137 | the group headers overwrite the blocked clusters and nothing else |
| Archiver.StreamArchiver.Open | stream-archiver.cpp:15-25 | a new stream is one empty open segment |
| Archiver.StreamArchiver.Reserve | stream-archiver.cpp:27-47 | inserting adds one element to the open segment, wherever it is placed; payload and older addresses stay |
| Archiver.StreamArchiver.Cut | stream-archiver.cpp:15-25 | a cut closes the open segment with its element count and opens the next |
| Archiver.StreamArchiver.GetNext | stream-archiver.cpp:27-47 | reading with any cursor gives the next element of its segment, NULL exactly at the cut, and goes on with the next segment |
| Aggregator.FindFirstBlockedExtent | extent-allocator.cpp:82-93 | the binary search finds the first blocked extent that does not end before the address |
| Aggregator.FindNextBlockedExtent | extent-allocator.cpp:95-102 | the next blocked extent that may meet the input, or NULL when none is left |
| Aggregator.FragmentStatus | metadata_reader.cpp:87-96 | a fragment lies in one blocked extent as a whole or touches none |
| Aggregator.ResettleExtent | metadata_reader.cpp:68-80 | a blocked fragment is copied to new clusters in order, and extents that tile it are written |
| Aggregator.FindBlockedExtentFragments | metadata_reader.cpp:82-112 | an extent is rehomed: the extents written tile it, blocked clusters have moved, all others have stayed, no place is blocked, every place has its old contents; at most one slot of the archive is used per cluster, and one new cluster for each blocked one; the loop ends in spite of empty fragments |
| Aggregator.AggregateExtents | metadata_reader.cpp:114-136 | the collected runs spell the chain, with lengths in 1..32768, and are as long as possible, 32768 being the most that ext4 reads as written; all clusters of the chain are rehomed and one closed segment tells where |
| Extents.RelocatedInjective | metadata_reader.cpp:68-112 | distinct clusters get distinct places |
| ExtentIterator.ExtentIterator.constructor | extent_iterator.cpp:6-12 | the cursor has all clusters of the stored extents ahead |
| ExtentIterator.ExtentIterator.NextClusterNo | extent_iterator.cpp:14-25 | the clusters come one by one, then 0 for good |
| Dentry.ReadShortName | fat.cpp:104-125 | the 8.3 name with its dot and case bits, closed by a zero |
| FatReading.ReadRightIffNoStray | fat.cpp:49-51 | the program lists a regular directory as FAT defines it if and only if no low attribute bit stands outside of long names and no lone short name begins with 5 or has a space in it |
| FatReading.ReadRight | metadata_reader.cpp:153-183 | one way for every directory, regular or not |
| FatRecord.ClusterRoundTrip | fat.cpp:39-43 | whatever number of a first cluster is stored in a record, the program reads it |
| FatRecord.LengthRoundTrip | ext4_extent.cpp:140-141 | the same for the length of a file |
| FatRecord.CharactersRoundTrip | fat.cpp:90-94 | whatever 13 characters are stored in a part of a long name, the program reads them, whatever the other bytes are |
| FatRecord.ShortNameReadIff | fat.cpp:104-125 | a short name is read as FAT defines it, with its dot and case, exactly if it does not begin with 5 and has no space with something behind it |
| FatRecord.NameCutAtSpace | fat.cpp:109-119 | the short name A B is read as A |
| FatReading.ReadOnlyFileIsLost | fat.cpp:49-51 | a read-only file before a file B is not listed, and B's name is made of its record |
| DirReader.ClusterReadState.NextDentry | metadata_reader.cpp:29-42 | the live records of all clusters of a directory, one by one, while their clusters may have moved |
| StreamWriter.ReserveSegment | metadata_reader.cpp:44-66 | a segment of equal elements is reserved, and its addresses stay good |
| Traverse.ReadLfn | metadata_reader.cpp:138-145 | the segments of a long name are filled in backwards, and the record behind them is found |
| Traverse.TraversePlace | metadata_reader.cpp:172-174 | the contents of one entry have moved, and a cursor stands at its extents |
| Traverse.TraverseDir | metadata_reader.cpp:147-184 | for every finite tree that the loop reads, the archive gains exactly its encoding; every file and directory keeps its contents cluster by cluster; fresh clusters rise over the whole run; on failure no payload is lost |
| FatTree.TreeReadRightIffNoStray | metadata_reader.cpp:147-184 | the tree the program reads is that of a regular volume if and only if there is nothing stray in any directory |
| FatTree.ChainRead | metadata_reader.cpp:114-136 | the chains that the program follows are those of the file allocation table, from cluster 2 to an entry of 0x0FFFFFF8 or more |
| FatTree.ReadTreeUnique | metadata_reader.cpp:172-181 | the file allocation table and the directory records leave no choice of what the program reads |
| Names.Ucs2ToUtf8 | ext4_dentry.cpp:20-43 | characters are added up to a zero or the first that does not fit, and never beyond 254 bytes |
| Names.NameKept | ext4_dentry.cpp:45-64 | over any segments the name is the encoding of the units that were kept, at most 254 bytes, and all units are kept when all fit |
| Names.DecodeEncode | ext4_dentry.cpp:23-41 | decoding gives back the units, and fails exactly when one is a surrogate |
| Names.NameRoundTrip | ext4_dentry.cpp:45-64 | a name is read back in full if and only if it fits and contains no surrogate |
| Names.SurrogateUnreadable | ext4_dentry.cpp:34-40 | a name of one lone surrogate is stored but malformed |
| Names.LongNameCutShort | ext4_dentry.cpp:51-60 | seven segments of three-byte characters are not read back |
| Bitmap.BitmapSetBits | util.cpp:68-84 | the word-parallel fill does what the bit-by-bit loop of its comment does, for all ends |
| Bitmap.SetBitsAt | util.cpp:69-70 | that loop sets exactly the bits from begin to end - 1 |
| Geometry.CreateBlockGroupMetaExtents | ext4_bg.cpp:59-90 | on any volume of sensible size, one clamped extent or dummy for each group and the sentinel; the exit is never taken |
| Geometry.OverheadFits | ext4_bg.cpp:63-67 | the metadata of a group never takes more than 3076 blocks, whatever the last group is like |
| Geometry.LastGroupDecides | ext4.cpp:69-78 | all groups hold their metadata if and only if the last one does |
| Geometry.LastGroupTooSmall | ext4.cpp:76-78 | there is a volume whose last group has metadata behind the end of the volume |
| Geometry.MetaExtentsWellFormed | ext4_bg.cpp:59-90 | the extents are sorted and disjoint, so sorting them changes nothing |
| Geometry.BlockedIsMetadata | ext4_bg.cpp:62-87 | in the data area, blocked clusters are exactly the metadata blocks |
| Geometry.NoExtentCrossesGroups | ext4_bg.cpp:178-180 | clusters that avoid the blocked extents stay inside one block group, behind its metadata |
| Geometry.GroupsAreFew | ext4_bg.cpp:12-15 | there are as many groups as all blocks of the volume need, and no more |
| Geometry.GroupCountFits | ext4_bg.cpp:215-217 | the 16-bit loop counter never wraps |
| BlockGroups.BlockGroups.InitExt4GroupDescs | ext4_bg.cpp:93-139 | every block bitmap shows metadata and what is beyond the group's end, every inode bitmap the reserved inodes and what is beyond the group's inodes, the descriptor leads to both and to the inode table, every count is right, and only metadata blocks are written |
| BlockGroups.BlockGroups.AddExtentToBlockBitmap | ext4_bg.cpp:178-190 | registering an extent keeps every bitmap and every count right |
| BlockGroups.BlockGroups.AddInode | ext4_bg.cpp:142-162 | the program exits exactly when no group has the number; otherwise the inode's bit is set, and every bitmap, free count and directory count is right again |
| BlockGroups.BlockGroups.AddReservedInode | ext4_bg.cpp:165-175 | a reserved directory is counted in its group, and nothing else changes |
| BlockGroups.BlockGroups.FinalizeBlockGroupsOnDisk | ext4_bg.cpp:214-222 | the superblock's count of free blocks is the number of blocks that are neither metadata nor registered; its count of free inodes is the sum of the groups' low halves, and is right if and only if every group has fewer than 65536 |
| BlockGroups.BitInBlock | ext4.cpp:26-28 | a bit of a bitmap belongs to the block its byte lies in |
| BlockGroups.MarkedFreeBlocks | ext4_bg.cpp:185-189 | registering n free blocks leaves exactly n fewer |
| BlockGroups.FreeInGroup | ext4_bg.cpp:216-221 | the free blocks of a group are those counted in its descriptor |
| BlockGroups.LowCountsRight | ext4_bg.cpp:216-219 | the sum of the low halves is the number of free inodes if and only if every high half is 0, and never more |
| BlockGroups.CountsFitIff | ext4_bg.cpp:216-219 | with n numbers given out that is so if and only if groups have fewer than 65536 inodes each, or fewer are left in all |
| BlockGroups.SmallGroups | ext4.cpp:89-93 | groups have fewer than 65536 inodes if and only if blocks have at most 16384 bytes |
| BlockGroups.InodeCountCutShort | ext4_bg.cpp:218-219 | on a volume with 32768-byte blocks 262101 inodes are free and the superblock says 131029 |
| BlockGroups.FreeInodesInGroup | ext4_bg.cpp:157-158 | up to the end of a group, as many inodes are free as before it and by its own count, and they fit in 32 bits |
| BlockGroups.FreeInodesLeft | ext4_inode.cpp:17-22 | when numbers have been given out one by one, what is free is the rest |
| Structures.SuperblockFits | ext4_bg.cpp:202-208 | the superblock is at byte 1024, its copies begin with their group, and both end in front of the descriptors |
| Structures.DescriptorsFit | ext4_bg.cpp:19-21 | in every group with a copy, all descriptors lie behind the superblock and in front of the block bitmap, and none overlap |
| Structures.CopiesAre | ext4.cpp:80-87 | the groups with copies are the first two and the last |
| Structures.InodeFieldsApart | ext4_bg.cpp:152-156 | the fields of an inode do not reach into the next |
| Structures.NodesFilled | ext4_extent.cpp:30-32 | the entries of a node take no more room than the inode or the block has, and one more would not fit |
| Structures.RecordFits | ext4_dentry.cpp:63 | the length of a directory record covers its fields and its name, with less than 4 bytes to spare |
| Structures.ElementFits | metadata_reader.cpp:44-66 | every element of the archive has room for its bytes, names included |
| Structures.HeadersFit | stream-archiver.h:8-18 | so have a segment's header and a page's link |
| InodeTable.InodeIsMetadata | ext4_bg.cpp:152-156 | every byte of an inode lies in the metadata of its group |
| InodeTable.InodesApart | ext4_bg.cpp:152-156 | no two inodes share a byte |
| BlockGroups.OtherGroupKept | ext4_bg.cpp:178-190 | work outside a group's block bitmap leaves its bitmap and free count right |
| BlockGroups.OtherInodesKept | ext4_bg.cpp:142-162 | work outside a group's inode bitmap leaves its bitmap and counts right |
| DirBlocks.RecLenBounds | ext4_dentry.cpp:15-17 | a record length is a multiple of 4 and just enough for the name |
| DirBlocks.PackedSnoc | tree_builder.cpp:111-114 | a record behind the last one leaves the records before it in place |
| DirBlocks.FinishPacked | tree_builder.cpp:126-128 | stretching the last record fills the block, exactly if its length fits in 16 bits |
| DirBlocks.WalkReads | tree_builder.cpp:91-128 | a reader that checks lengths, alignment and bounds finds exactly the entries of a finished block, in order |
| DirBlocks.HugeBlockUnreadable | tree_builder.cpp:126-128 | in a block of 65536 bytes a record that is alone gets length 0, and no reader gets past it |
| DirBlocks.LayoutIsLeast | tree_builder.cpp:100-111 | the block count of a directory is the least that holds its records in order |
| ExtentTree.AddressStored | ext4_extent.cpp:22-28 | a block number survives being split into halves |
| ExtentTree.IndexRead | ext4_extent.cpp:106-107 | all 48 bits of a block number in an index are read back |
| ExtentTree.TreeReads | ext4_extent.cpp:57-121 | a reader finds exactly the extents; the depth is 1 if and only if there are more than four |
| ExtentTree.RootKeepsOneEntry | ext4_extent.cpp:66-108 | over appends that write the root only as the root, it has depth 1 and a single entry from the fifth extent on |
| ExtentTree.TooManyExtents | ext4_extent.cpp:34-55 | after more such appends than extents fit in one block no reader finds them, whatever is left in the blocks |
| ExtentTree.TreeRightIffItFits | ext4_extent.cpp:66-121 | over any run of such appends on an empty inode the tree is right if and only if the extents fit in one block |
| ExtentTree.EightyFiveExtents | ext4_extent.cpp:81-85 | there is a run of 85 extents on 1024-byte blocks after which a reader does not find them |
| Overflow.NextAppendFollowsLength | ext4_extent.cpp:73-77 | after an overflow the next append goes to the block whose number is the length of the lost extent, and a reader elsewhere |
| Overflow.RawEntryCounted | ext4_extent.cpp:57-64 | whatever the bytes of a block are meant to be, an append changes two of them and one entry, and never leaves them as they were |
| Overflow.OverflowCanHitFile | ext4_extent.cpp:73-79 | if that block belongs to a file whose bytes pass for a leaf with room, part of the file is overwritten |
| Overflow.AlmostZeroFileIsHit | ext4_extent.cpp:73-79 | on a volume with 1024-byte blocks, the append behind an overflow with an extent of 200 clusters changes a given file in cluster 102 |
| Overflow.OverflowCanHitInode | ext4_extent.cpp:73-79 | for every inode of the first group there is a length of the lost extent that leads the next append to the block which holds this inode |
| RepairedTree.AppendOk | ext4_extent.cpp:66-90 | repaired variant: at any depth an append adds one extent at the end, and the tree stays uniform and sorted |
| RepairedTree.AddOk | ext4_extent.cpp:110-121 | repaired variant: adding always succeeds, if need be after deepening |
| RepairedTree.RepairedTreeHoldsAll | ext4_extent.cpp:110-121 | repaired variant: over any run the leaves hold all extents in order, equally deep, under sorted indices |
| Ext4.Ext4Volume.AppendInBlock | ext4_extent.cpp:57-64 | an entry is added exactly if there is room |
| Ext4.Ext4Volume.AppendToExtentTree | ext4_extent.cpp:66-90 | the extent goes to the last leaf, found by the low 32 bits of the last index, or overwrites the last index when that leaf is full |
| Ext4.Ext4Volume.MakeTreeDeeper | ext4_extent.cpp:92-108 | the root moves into a new, registered block, counted in i_blocks |
| Ext4.Ext4Volume.AddExtent | ext4_extent.cpp:110-121 | the tree holds one more extent, or, exactly when a block is full, has lost its index |
| Ext4.Ext4Volume.RegisterBlocks | ext4_extent.cpp:133-137 | the blocks of an extent are marked and counted; that they lie in one group and are unmarked is proved, not assumed |
| Ext4.Ext4Volume.RegisterExtent | ext4_extent.cpp:123-138 | only the fifth extent takes a cluster, for the tree's block; tree, i_blocks and bitmap agree on one more extent; the inode comes to own its clusters and the tree's block if that is new, and nothing else has changed |
| Ext4.Ext4Volume.LastExtent | ext4_extent.cpp:149-159 | the walk ends at the extent that was added last |
| Ext4.Ext4Volume.BuildInode | ext4_inode.cpp:19-41 | the next inode number is used, its group exists and its bitmap and counts show it, or the program exits because no group has it |
| Ext4.Ext4Volume.AddReservedInode | ext4_bg.cpp:165-175 | a reserved inode is entered, a directory is counted in its group, and no other inode changes |
| Ext4.CountsBlocksAfter | ext4_extent.cpp:133-134 | i_blocks counts the extents and the tree's own block in sectors |
| Ext4Tree.NumbersAreConsecutive | ext4_inode.cpp:17-22 | inode numbers in preorder are consecutive, hence unique |
| Ext4Tree.TreeIsSealed | ext4_inode.cpp:17-22 | every number that a tree takes is that of a finished inode |
| Builder.SkipSegment | tree_builder.cpp:22-28 | reading to NULL leaves the cursor at the next segment |
| Builder.SetExtents | ext4_extent.cpp:140-147 | a file's inode gets the length in its record as its size, and exactly the extents of its segment; the tree overflows only if they are more than fit in one block, and if they are it does unless the disk is full before; it takes one cluster at most |
| Builder.BuildDentry | ext4_dentry.cpp:45-64 | the record carries the converted name and its minimal length |
| Builder.SpecialNames | ext4_dentry.cpp:75-85 | the names of the dot entries and of lost+found, as text |
| Builder.BuildDotDirs | tree_builder.cpp:30-38 | a directory starts with its two dot records |
| Builder.NextDirBlock | tree_builder.cpp:66-72 | blocks come from the directory's own clusters, then from the allocator |
| Builder.FinishBlock | tree_builder.cpp:101-103 | a finished block is entered into the directory's extents and lists exactly what was put in; the tree overflows exactly when there is no room for one more block |
| Builder.AddRecord | tree_builder.cpp:100-114 | a record goes behind the last one or into a new block, and never across |
| Builder.BuildFile | tree_builder.cpp:117-119 | a file's inode is complete, its segments are used up |
| Builder.BuildEntry | tree_builder.cpp:94-123 | an entry is listed under the next inode number and built, and the directory around it is untouched; it takes four clusters at most for each new inode, and runs out of inodes only when there are fewer than it and what is below it need |
| Builder.BuildDir | tree_builder.cpp:79-133 | exactly the segments of the directory are read; it lists the dot entries and its children in order, its size is its block count times the block size, its links count its subdirectories, everything below it is built, and only its own clusters and new ones are written; it succeeds only if everything fits, and overflows only if something does not; it takes at most four clusters for each entry below and two more, and runs out of inodes only if there are not enough for these entries |
| Builder.BuildLostFound | tree_builder.cpp:40-64 | the root directory lists lost+found in a block of its own, and lost+found is an empty directory; the root's tree overflows exactly when it has no room for that block |
| Payload.FilesMoved | metadata_reader.cpp:147-184 | moving all clusters of a tree moves each file to its own extents |
| Payload.FilePlacesApart | tree_builder.cpp:66-72 | the clusters reused for directory blocks are not those of files |
| Payload.MapBlockFinds | ext4_extent.cpp:22-28 | extents that tile a file map each logical block to the block of the cluster at that place, and no others, in a reader that takes extents of more than 32768 blocks for unwritten |
| Payload.TreeFilesRead | ext4_extent.cpp:140-147 | read from its inode, every file of the tree has its old contents block by block, ends where they end, and has the length in its record |
| Conversion.ReadMetadata | ofs-convert.cpp:31-37 | phase one as a whole, for the tree that the program reads; it uses no more clusters than the archive and the blocked clusters of the tree need |
| Conversion.ArchiveFits | stream-archiver.cpp:34-43 | a cluster that was available at the start is still available, a page, or holds payload, and pages are filled |
| Conversion.SoundVolumeIsRead | ofs-convert.cpp:31-37 | a sound volume with nothing stray is read as it is |
| Conversion.ReadOnlyFileIsMissed | fat.cpp:49-51 | there is a sound, regular volume of which the program reads another tree, without one of its files |
| Conversion.EmptyVolumeHasEnough | ofs-convert.cpp:27-44 | a volume with an empty root directory has clusters, inodes and room enough for all of the conversion |
| Conversion.BeginPhaseTwo | ofs-convert.cpp:40 | after the group headers have been written the archive is intact and all clusters of the tree wait unmarked, each once |
| Conversion.BuildTree | ofs-convert.cpp:41-43 | phase two as a whole: it succeeds only if every inode's extents fit in one block, and overflows only if those of some inode do not; it takes at most four clusters per entry and six more |
| Conversion.AllSealed | tree_builder.cpp:79-133 | at the end every registered cluster belongs to a finished inode |
| Conversion.FinishConversion | ofs-convert.cpp:40-43 | phase two with the final counts; it is stopped only if the inodes are too few for the entries, or the clusters are |
| Conversion.Convert | ofs-convert.cpp:27-44 | the conversion as a whole, as told above: never stopped with enough inodes and clusters, never derailed when all extents fit, and complete otherwise |

## Left out

- Device access, command line and boot sector parsing (`partition.cpp`, `ofs-convert.cpp:14-25`): the volume is an array of clusters, its geometry a `Geo`.
- `visualizer.cpp`, `KernelModule/`, `test/`: no effect on the conversion.
- `init_ext4_sb`: only its geometry is modelled; feature flags, labels and UUID are not. `Geo.Valid` asks for what it takes for granted: a last group that is larger than its metadata, fewer than 2^28 blocks.
- Inode timestamps, owners and modes, `read_volume_label`, `fat_time_to_unix`.
- Inode tables as bytes: inodes are a map from numbers. That every inode has bytes of its own in the table of its group is proved apart from it (`InodeTable`).
- BlockGroups.BlockGroups.InitExt4GroupDescs: does not clear the inode tables, because inodes are a map that starts empty.
- BlockGroups.BlockGroups.FinalizeBlockGroupsOnDisk: does not write out superblock copies and descriptor tables (`write_sb_copy`).
- Archiver.Volume.OverwriteMetadata: all group headers are written at once, and their contents are one marker; what is in them is told by `BlockGroups` in words of the device.
- Byte-level overlay of structures: a cluster is typed, and a stale FAT record behind the end of a new directory block, or an old entry behind a node's last one, is not represented; no reader reaches it.
- The device is seen twice, as clusters by the archive, the files and the directory blocks, and as words by the block groups. The word view changes in metadata blocks only (`DataKept`), the cluster view loses exactly the blocked clusters (`OverwriteMetadata`).
- Pointers into the archive that the program keeps while it goes on (`f_dentry`, `current_extent`) are kept as the values they point to; the archive does not change in phase two.
- The unwritten bytes behind the zero of a short name, and the wrap-around of a child count at 2^32.
- Ext4.Ext4Volume.AppendToExtentTree: has no contract for a tree whose index has been overwritten, because there the program works on whatever bytes the stray block holds; `Overflow` says which block that is and what an append does to it.
- Ext4.Ext4Volume.AddExtent: no contract after an overflow, for the same reason.
- ExtentTree.RootKeepsOneEntry: not for runs in which a stray append changes the inode that holds the root; `Overflow.OverflowCanHitInode` says that there are such blocks. What such a write does to the root depends on what it meets there.
- ExtentTree.TooManyExtents: not for those runs either.
- ExtentTree.TreeRightIffItFits: not for those runs either; they need more extents than fit in one block.
- Ext4.Ext4Volume.RegisterExtent: no contract after an overflow, for the same reason.
- Conversion.BuildTree: ends at the first overflow, with the outcome `TreeOverflow`, where the program goes on.
- Conversion.Convert: ends there too (`Derailed`). Volumes on which `traverse` runs past the records of a directory or follows a chain out of the volume are outside of `ReadAs`; without stray records there are none (`SoundVolumeIsRead`).
- FatReading.ReadRight: bytes from 128 on in short names are taken for characters of that number in both readings; code pages are not modelled.
- Builder.BuildLostFound: the inode of lost+found is entered after its record has been written, not before; both touch different places.
- Loops in a FAT chain, chains out of range and clusters that belong to two files: `FatVolume` rules them out, as the program takes for granted that there are none.
- RepairedTree.AppendOk: about the shape of the repaired tree only, not its blocks and headers, and not when there is no room.
- RepairedTree.AddOk: about the shape of the repaired tree only.
- RepairedTree.RepairedTreeHoldsAll: about the shape of the repaired tree only.
- The exit of `set_meta_info` for unaligned clusters (`fat.cpp:146-149`): the first data cluster starts a block.
