/** The bitmaps and counts of the block groups (ext4_bg.cpp). */
module BlockGroups {
  import opened Fat
  import opened Bitmap
  import opened Geometry
  import opened Util

  /** The part of ext4_group_desc that the accounting uses. */
  datatype GroupDesc = GroupDesc(blockBitmap: Halves, inodeBitmap: Halves, inodeTable: Halves, freeBlocks: Halves,
                                 freeInodes: Halves, usedDirs: Halves)

  /** What the bitmaps and counts should show: the blocks registered so far, and the numbers of
      the inodes in use beyond the reserved ones and of all directories. */
  datatype Books = Books(marked: set<nat>, taken: set<nat>, dirs: set<nat>)

  /** The number of bits in one block. */
  function BlockBits(g: Geo): nat { 8 * g.blockSize }

  /** The memory holds all blocks of the volume. */
  ghost predicate HoldsVolume(g: Geo, words: nat) {
    32 * words == BlockBits(g) * g.blockCount
  }

  /** The first bit of a block in memory. */
  function FirstBit(g: Geo, block: nat): nat { BlockBits(g) * block }

  /** A bit belongs to the block that its byte lies in. */
  lemma BitInBlock(g: Geo, block: nat, i: nat)
    requires 0 < g.blockSize
    ensures FirstBit(g, block) <= i < FirstBit(g, block + 1) <==>
              g.blockSize * block <= i / 8 < g.blockSize * (block + 1)
  {
    assert FirstBit(g, block) == 8 * (g.blockSize * block);
    assert FirstBit(g, block + 1) == 8 * (g.blockSize * (block + 1));
  }

  /** The first bit of a group's block bitmap in memory. */
  function BitmapBase(g: Geo, num: nat): nat
    requires 64 <= g.blockSize
  {
    FirstBit(g, g.BlockBitmapBlock(num))
  }

  lemma MulSpan(w: nat, b: nat, c: nat)
    requires b < c
    ensures w * b + w <= w * c
  {
    MulMonotone(w, b + 1, c);
    assert w * (b + 1) == w * b + w;
  }

  lemma ModMultiple(w: nat, b: nat)
    requires w % 32 == 0
    ensures (w * b) % 32 == 0
  {
    var q := w / 32;
    assert w * b == 32 * (q * b);
  }

  lemma BitmapBlockFits(g: Geo, num: nat)
    requires g.Valid() && num < g.GroupCount()
    ensures g.BlockBitmapBlock(num) + 1 < g.blockCount
  {
    hide Geo.InodeTableBlocks, Geo.GdtBlockCount, Geo.GroupStart, Geo.GroupCount, Geo.BlocksPerGroup, Geo.HasSbCopy;
    MetadataTiles(g, num);
  }

  lemma BlocksFitBitmap(g: Geo)
    requires g.Valid()
    ensures g.BlocksPerGroup() <= BlockBits(g) && BlockBits(g) % 32 == 0 && 32 <= BlockBits(g)
  {
  }

  lemma GroupFits(g: Geo, num: nat)
    requires g.Valid() && num < g.GroupCount()
    ensures g.GroupStart(num) <= g.blockCount
    ensures g.GroupBlockCount(num) <= BlockBits(g) && g.Overhead(num) < g.GroupBlockCount(num)
  {
    hide Geo.Overhead, Geo.GroupStart, Geo.GroupCount, Geo.BlocksPerGroup, BlockBits;
    BlocksFitBitmap(g);
  }

  lemma BitmapBaseFacts(g: Geo, num: nat, words: nat)
    requires g.Valid() && num < g.GroupCount() && HoldsVolume(g, words)
    ensures BitmapBase(g, num) % 32 == 0 && BlockBits(g) % 32 == 0
    ensures BitmapBase(g, num) + BlockBits(g) + 32 <= 32 * words
  {
    hide Geo.BlockBitmapBlock, Geo.GroupsHoldMetadata, BlockBits;
    BitmapBlockFits(g, num);
    BlocksFitBitmap(g);
    var w, b := BlockBits(g), g.BlockBitmapBlock(num);
    ModMultiple(w, b);
    MulSpan(w, b, b + 1);
    MulSpan(w, b + 1, g.blockCount);
  }

  /** What a group's bitmap has to show: the group starts at block start, has count blocks, and
      the first overhead of them are metadata; its bitmap is the bits from base on. The same for
      inodes, the first of which are reserved. */
  datatype GroupView = GroupView(start: nat, count: nat, overhead: nat, base: nat, bits: nat)

  function ViewOf(g: Geo, num: nat): GroupView
    requires g.Valid() && num < g.GroupCount()
  {
    GroupView(g.GroupStart(num), g.GroupBlockCount(num), g.Overhead(num), BitmapBase(g, num), BlockBits(g))
  }

  /** Bit i should be set: the block is metadata, registered, or beyond the group's end. */
  ghost predicate ShouldBeSet(v: GroupView, marked: set<nat>, i: nat) {
    i < v.overhead || v.count <= i || v.start + i in marked
  }

  ghost function FreeBlocks(v: GroupView, marked: set<nat>): set<nat> {
    set i | 0 <= i < v.count && !ShouldBeSet(v, marked, i)
  }

  /** Bit i of the group's bitmap shows what it should. */
  ghost predicate Shows(memory: seq<bv32>, v: GroupView, marked: set<nat>, i: nat) {
    (v.base + i) / 32 < |memory| && (BitAt(memory, v.base + i) <==> ShouldBeSet(v, marked, i))
  }

  ghost predicate BitmapOk(memory: seq<bv32>, v: GroupView, marked: set<nat>) {
    forall i :: 0 <= i < v.bits ==> Shows(memory, v, marked, i)
  }

  ghost predicate GroupDescOk(g: Geo, desc: GroupDesc, marked: set<nat>, num: nat)
    requires g.Valid() && num < g.GroupCount()
  {
    && FromLoHi32(desc.blockBitmap) == g.BlockBitmapBlock(num)
    && Stores16(desc.freeBlocks, |FreeBlocks(ViewOf(g, num), marked)|)
  }

  ghost predicate GroupOk(g: Geo, memory: seq<bv32>, desc: GroupDesc, marked: set<nat>, num: nat)
    requires g.Valid() && num < g.GroupCount()
  {
    BitmapOk(memory, ViewOf(g, num), marked) && GroupDescOk(g, desc, marked, num)
  }

  function InodeViewOf(g: Geo, num: nat): GroupView
    requires g.Valid() && num < g.GroupCount()
  {
    GroupView(g.InodesPerGroup() * num + 1, g.InodesPerGroup(), if num == 0 then EXT4_FIRST_NON_RSV_INODE else 0,
              FirstBit(g, g.InodeBitmapBlock(num)), BlockBits(g))
  }

  ghost function DirsIn(v: GroupView, dirs: set<nat>): set<nat> {
    set k | k in dirs && v.start <= k < v.start + v.count
  }

  /** The inode bitmap and the inode counts of a group. */
  ghost predicate InodesOk(g: Geo, memory: seq<bv32>, desc: GroupDesc, taken: set<nat>, dirs: set<nat>, num: nat)
    requires g.Valid() && num < g.GroupCount()
  {
    && BitmapOk(memory, InodeViewOf(g, num), taken)
    && FromLoHi32(desc.inodeBitmap) == g.InodeBitmapBlock(num)
    && FromLoHi32(desc.inodeTable) == g.InodeTableBlock(num)
    && Stores16(desc.freeInodes, |FreeBlocks(InodeViewOf(g, num), taken)|)
    && Stores16(desc.usedDirs, |DirsIn(InodeViewOf(g, num), dirs)|)
  }

  /** The first n groups. */
  ghost predicate GroupsOk(g: Geo, memory: seq<bv32>, descs: seq<GroupDesc>, books: Books, n: nat)
    requires g.Valid() && n <= g.GroupCount() <= |descs|
  {
    forall num :: 0 <= num < n ==>
      && GroupOk(g, memory, descs[num], books.marked, num)
      && InodesOk(g, memory, descs[num], books.taken, books.dirs, num)
  }

  /** Bits outside [lo, hi) have not changed. */
  ghost predicate SameOutside(before: seq<bv32>, after: seq<bv32>, lo: nat, hi: nat) {
    && |after| == |before|
    && forall i: nat {:trigger BitAt(after, i)} :: i / 32 < |after| && (i < lo || hi <= i) ==>
         (BitAt(after, i) <==> BitAt(before, i))
  }

  /** Bit k of a block. */
  function BlockBit(g: Geo, block: nat, k: nat): nat { FirstBit(g, block) + k }

  /** No bit of a block outside the groups' metadata has changed. */
  ghost predicate DataKept(g: Geo, before: seq<bv32>, after: seq<bv32>)
    requires g.Valid()
  {
    && |after| == |before|
    && forall block: nat, k: nat {:trigger BlockBit(g, block, k)} ::
         k < BlockBits(g) && BlockBit(g, block, k) / 32 < |after| && !g.IsMetadata(block) ==>
           (BitAt(after, BlockBit(g, block, k)) <==> BitAt(before, BlockBit(g, block, k)))
  }

  /** All changes are in one block. */
  ghost predicate OnlyBlock(g: Geo, before: seq<bv32>, after: seq<bv32>, block: nat) {
    SameOutside(before, after, FirstBit(g, block), FirstBit(g, block) + BlockBits(g))
  }

  lemma MetadataWritten(g: Geo, before: seq<bv32>, after: seq<bv32>, written: nat)
    requires g.Valid() && g.IsMetadata(written) && OnlyBlock(g, before, after, written)
    ensures DataKept(g, before, after)
  {
    hide BlockBits, Geo.GroupCount, Geo.GroupStart, Geo.Overhead, Geo.GroupsHoldMetadata, BitAt, FirstBit,
         Geo.IsMetadata;
    forall block: nat, k: nat {:trigger BlockBit(g, block, k)}
      | k < BlockBits(g) && BlockBit(g, block, k) / 32 < |after| && !g.IsMetadata(block)
      ensures BitAt(after, BlockBit(g, block, k)) <==> BitAt(before, BlockBit(g, block, k))
    {
      BlocksApart(g, block, written);
    }
  }

  lemma DataKeptTransitive(g: Geo, a: seq<bv32>, b: seq<bv32>, c: seq<bv32>)
    requires g.Valid() && DataKept(g, a, b) && DataKept(g, b, c)
    ensures DataKept(g, a, c)
  {
    hide BlockBits, BitAt, BlockBit, Geo.IsMetadata, Geo.GroupsHoldMetadata;
  }

  lemma BlocksApart(g: Geo, a: nat, b: nat)
    requires a != b
    ensures FirstBit(g, a) + BlockBits(g) <= FirstBit(g, b) || FirstBit(g, b) + BlockBits(g) <= FirstBit(g, a)
  {
    hide BlockBits;
    if a < b { MulSpan(BlockBits(g), a, b); } else { MulSpan(BlockBits(g), b, a); }
  }

  lemma BitmapBlocksInGroup(g: Geo, num: nat)
    requires g.Valid() && num < g.GroupCount()
    ensures g.GroupStart(num) <= g.BlockBitmapBlock(num) < g.InodeBitmapBlock(num) < g.GroupStart(num) + g.Overhead(num)
    ensures g.IsMetadata(g.BlockBitmapBlock(num)) && g.IsMetadata(g.InodeBitmapBlock(num))
  {
    hide Geo.InodeTableBlocks, Geo.GdtBlockCount, Geo.GroupStart, Geo.GroupCount, Geo.HasSbCopy, Geo.GroupsHoldMetadata;
  }

  /** No two bitmaps share a block. */
  lemma BitmapBlocksApart(g: Geo, j: nat, k: nat)
    requires g.Valid() && j < g.GroupCount() && k < g.GroupCount()
    ensures g.BlockBitmapBlock(j) != g.InodeBitmapBlock(k)
    ensures j != k ==> g.BlockBitmapBlock(j) != g.BlockBitmapBlock(k) && g.InodeBitmapBlock(j) != g.InodeBitmapBlock(k)
  {
    hide Geo.BlockBitmapBlock, Geo.InodeBitmapBlock, Geo.GroupStart, Geo.GroupCount, Geo.Overhead,
         Geo.GroupsHoldMetadata,
         Geo.BlocksPerGroup, Geo.IsMetadata;
    BitmapBlocksInGroup(g, j);
    BitmapBlocksInGroup(g, k);
    if j < k { GroupsAscend(g, j, k); } else if k < j { GroupsAscend(g, k, j); }
  }

  /** A group whose bitmap lies outside the changed bits keeps it, if nothing of it has been
      registered. */
  lemma OtherBitmapKept(before: seq<bv32>, after: seq<bv32>, lo: nat, hi: nat, v: GroupView,
                        marked: set<nat>, marked2: set<nat>)
    requires SameOutside(before, after, lo, hi) && (v.base + v.bits <= lo || hi <= v.base)
    requires BitmapOk(before, v, marked)
    requires forall i :: 0 <= i < v.bits ==> (ShouldBeSet(v, marked2, i) <==> ShouldBeSet(v, marked, i))
    ensures BitmapOk(after, v, marked2)
  {
    forall i | 0 <= i < v.bits ensures Shows(after, v, marked2, i) {
      assert Shows(before, v, marked, i);
      var bit: nat := v.base + i;
      assert BitAt(after, bit) <==> BitAt(before, bit);
    }
  }

  lemma ClearedBits(before: seq<bv32>, after: seq<bv32>, from: nat, count: nat)
    requires |after| == |before| && from + count <= |after|
    requires forall w :: 0 <= w < |after| ==> after[w] == if from <= w < from + count then 0 else before[w]
    ensures SameOutside(before, after, 32 * from, 32 * (from + count))
    ensures forall i: nat {:trigger BitAt(after, i)} :: 32 * from <= i < 32 * (from + count) ==> !BitAt(after, i)
  {
  }

  /** The bitmap of a new group: clear, then its metadata and what lies beyond its end. */
  lemma NewBitmapOk(m0: seq<bv32>, m1: seq<bv32>, v: GroupView)
    requires SameOutside(m0, m1, v.base, v.base + v.bits) && v.base + v.bits <= 32 * |m0|
    requires v.overhead < v.count <= v.bits
    requires forall i: nat {:trigger BitAt(m1, i)} :: v.base <= i < v.base + v.bits && i / 32 < |m1| ==> !BitAt(m1, i)
    ensures (v.base + v.bits - 1) / 32 < |m1|
    ensures var m3 := SetBits(SetBits(m1, v.base, v.base + v.overhead), v.base + v.count, v.base + v.bits);
            BitmapOk(m3, v, {}) && SameOutside(m0, m3, v.base, v.base + v.bits)
  {
    hide BitAt, SetBits;
    var m2 := SetBits(m1, v.base, v.base + v.overhead);
    var m3 := SetBits(m2, v.base + v.count, v.base + v.bits);
    forall i: nat | i / 32 < |m3|
      ensures BitAt(m3, i) <==>
                BitAt(m1, i) || v.base <= i < v.base + v.overhead || v.base + v.count <= i < v.base + v.bits
    {
      SetBitsAt(m1, v.base, v.base + v.overhead, i);
      SetBitsAt(m2, v.base + v.count, v.base + v.bits, i);
    }
  }

  /** The bitmap after the blocks start + lo, ..., start + hi - 1 have been registered. */
  lemma MarkedBitmapOk(m0: seq<bv32>, v: GroupView, marked: set<nat>, lo: nat, hi: nat)
    requires BitmapOk(m0, v, marked) && lo < hi <= v.count <= v.bits && v.base + v.bits <= 32 * |m0|
    ensures (v.base + hi - 1) / 32 < |m0|
    ensures var m1 := SetBits(m0, v.base + lo, v.base + hi);
            && BitmapOk(m1, v, marked + Span(v.start + lo, hi - lo))
            && SameOutside(m0, m1, v.base, v.base + v.bits)
  {
    hide BitAt, SetBits;
    var m1, marked2 := SetBits(m0, v.base + lo, v.base + hi), marked + Span(v.start + lo, hi - lo);
    forall i: nat | i / 32 < |m1|
      ensures BitAt(m1, i) <==> BitAt(m0, i) || v.base + lo <= i < v.base + hi
    {
      SetBitsAt(m0, v.base + lo, v.base + hi, i);
    }
    forall i | 0 <= i < v.bits ensures Shows(m1, v, marked2, i) {
      assert Shows(m0, v, marked, i);
      var bit: nat := v.base + i;
      assert BitAt(m1, bit) <==> BitAt(m0, bit) || v.base + lo <= bit < v.base + hi;
    }
  }

  /** Registering free blocks takes exactly them off the free blocks. */
  lemma MarkedFreeBlocks(v: GroupView, marked: set<nat>, lo: nat, hi: nat)
    requires v.overhead <= lo < hi <= v.count
    requires Span(v.start + lo, hi - lo) !! marked
    ensures |FreeBlocks(v, marked + Span(v.start + lo, hi - lo))| == |FreeBlocks(v, marked)| - (hi - lo)
  {
    hide ShouldBeSet, Span, AtLeast;
    var taken, marked2 := Span(lo, hi - lo), marked + Span(v.start + lo, hi - lo);
    forall i: nat
      ensures i in taken ==> i in FreeBlocks(v, marked)
      ensures i in FreeBlocks(v, marked2) <==> i in FreeBlocks(v, marked) && i !in taken
    {
      SetAfter(v, marked, lo, hi, i);
    }
    assert FreeBlocks(v, marked2) == FreeBlocks(v, marked) - taken;
    SpanSize(lo, hi - lo);
  }

  lemma SetAfter(v: GroupView, marked: set<nat>, lo: nat, hi: nat, i: nat)
    requires v.overhead <= lo < hi <= v.count
    requires Span(v.start + lo, hi - lo) !! marked
    ensures i in Span(lo, hi - lo) ==> i < v.count && !ShouldBeSet(v, marked, i)
    ensures ShouldBeSet(v, marked + Span(v.start + lo, hi - lo), i) <==>
              ShouldBeSet(v, marked, i) || i in Span(lo, hi - lo)
  {
    assert i in Span(lo, hi - lo) <==> v.start + i in Span(v.start + lo, hi - lo);
  }

  lemma NewFreeBlocks(v: GroupView)
    requires v.overhead <= v.count
    ensures |FreeBlocks(v, {})| == v.count - v.overhead
  {
    assert FreeBlocks(v, {}) == Span(v.overhead, v.count - v.overhead);
    SpanSize(v.overhead, v.count - v.overhead);
  }

  class BlockGroups {
    const g: Geo
    /** The device as 32-bit words. */
    const memory: array<bv32>
    const groupDescs: array<GroupDesc>
    ghost var books: Books

    ghost predicate Shape()
      reads this
    {
      && g.Valid() && HoldsVolume(g, memory.Length)
      && groupDescs.Length == g.GroupCount() && (memory as object) != groupDescs
    }

    /** Every bit of every bitmap is right, and so is every count. */
    ghost predicate Valid()
      reads this, memory, groupDescs
    {
      && Shape() && GroupsOk(g, memory[..], groupDescs[..], books, g.GroupCount())
      && forall no :: no in books.taken ==> no <= g.GroupCount() * g.InodesPerGroup()
    }

    constructor (g: Geo, memory: array<bv32>)
      requires g.Valid() && HoldsVolume(g, memory.Length)
      ensures Shape() && this.g == g && this.memory == memory && fresh(groupDescs) && books == Books({}, {}, {})
    {
      this.g, this.memory := g, memory;
      var zero := Halves(0, 0);
      this.groupDescs := new GroupDesc[g.GroupCount()](_ => GroupDesc(zero, zero, zero, zero, zero, zero));
      this.books := Books({}, {}, {});
    }

    lemma ValidIsShape()
      requires Valid()
      ensures Shape()
    {
    }

    /** One turn of the loop in init_ext4_group_descs, as far as blocks are concerned ... */
    method InitBlocks(num: nat)
      requires Shape() && num < g.GroupCount()
      modifies memory, groupDescs
      ensures GroupOk(g, memory[..], groupDescs[num], {}, num)
      ensures OnlyBlock(g, old(memory[..]), memory[..], g.BlockBitmapBlock(num))
      ensures forall i :: 0 <= i < groupDescs.Length && i != num ==> groupDescs[i] == old(groupDescs[i])
    {
      hide BlockBits, Geo.GroupCount, Geo.GroupStart, Geo.GroupBlockCount, Geo.Overhead, Geo.BlockBitmapBlock,
           Geo.BlocksPerGroup, BitmapOk, SameOutside, FreeBlocks, SetLoHi32, SetLoHi16, FromLoHi32, FromLoHi16;
      NewGroupFacts(g, num, memory.Length);
      var block, count, overhead := g.BlockBitmapBlock(num), g.GroupBlockCount(num), g.Overhead(num);
      groupDescs[num] := groupDescs[num].(blockBitmap := SetLoHi32(block), freeBlocks := SetLoHi16(count - overhead));
      InitBitmap(memory, ViewOf(g, num));
    }

    /** ... and as far as inodes are. */
    method InitInodes(num: nat)
      requires Shape() && num < g.GroupCount()
      modifies memory, groupDescs
      ensures InodesOk(g, memory[..], groupDescs[num], {}, {}, num)
      ensures OnlyBlock(g, old(memory[..]), memory[..], g.InodeBitmapBlock(num))
      ensures forall i :: 0 <= i < groupDescs.Length && i != num ==> groupDescs[i] == old(groupDescs[i])
      ensures SameBlockPart(old(groupDescs[num]), groupDescs[num])
    {
      hide BlockBits, Geo.GroupCount, Geo.InodeBitmapBlock, Geo.InodesPerGroup, Geo.GroupsHoldMetadata, BitmapOk,
           SameOutside, FreeBlocks, SetLoHi32, SetLoHi16, FromLoHi32, FromLoHi16, DirsIn;
      NewInodesFacts(g, num, memory.Length);
      var usedInodes := if num == 0 then EXT4_FIRST_NON_RSV_INODE else 0;
      groupDescs[num] := groupDescs[num].(inodeBitmap := SetLoHi32(g.InodeBitmapBlock(num)),
                                          inodeTable := SetLoHi32(g.InodeTableBlock(num)),
                                          freeInodes := SetLoHi16(g.InodesPerGroup() - usedInodes),
                                          usedDirs := Halves(0, 0));
      InitBitmap(memory, InodeViewOf(g, num));
    }

    /** init_ext4_group_descs */
    method InitExt4GroupDescs()
      requires Shape() && books == Books({}, {}, {})
      modifies memory, groupDescs
      ensures Valid() && DataKept(g, old(memory[..]), memory[..])
    {
      hide GroupOk, InodesOk, OnlyBlock, BlockBit, BlockBits, Geo.GroupCount, Geo.BlockBitmapBlock, DataKept,
           Geo.InodeBitmapBlock, Geo.GroupsHoldMetadata, Geo.IsMetadata, SameBlockPart;
      var i := 0;
      DataKeptReflexive(g, memory[..]);
      while i < g.GroupCount()
        invariant 0 <= i <= g.GroupCount()
        invariant GroupsOk(g, memory[..], groupDescs[..], books, i)
        invariant DataKept(g, old(memory[..]), memory[..])
      {
        ghost var before, descs := memory[..], groupDescs[..];
        BitmapBlocksInGroup(g, i);
        InitBlocks(i);
        ghost var mid, descs1 := memory[..], groupDescs[..];
        MetadataWritten(g, before, mid, g.BlockBitmapBlock(i));
        EarlierGroupsKept(g, before, mid, descs, descs1, books, i, g.BlockBitmapBlock(i));
        InitInodes(i);
        MetadataWritten(g, mid, memory[..], g.InodeBitmapBlock(i));
        EarlierGroupsKept(g, mid, memory[..], descs1, groupDescs[..], books, i, g.InodeBitmapBlock(i));
        BitmapBlocksApart(g, i, i);
        OtherGroupKept(g, mid, memory[..], descs1[i], groupDescs[i], books.marked, books.marked, i,
                       g.InodeBitmapBlock(i));
        DataKeptTransitive(g, old(memory[..]), before, mid);
        DataKeptTransitive(g, old(memory[..]), mid, memory[..]);
        i := i + 1;
      }
    }

    /** add_extent_to_block_bitmap */
    method AddExtentToBlockBitmap(begin: nat, end: nat)
      requires Valid() && InsideOneGroup(g, begin, end) && Span(begin, end - begin) !! books.marked
      modifies `books, memory, groupDescs
      ensures Valid() && books == old(books).(marked := old(books).marked + Span(begin, end - begin))
      ensures DataKept(g, old(memory[..]), memory[..])
    {
      hide GroupOk, InodesOk, DataKept, Geo.GroupsHoldMetadata, RegisteredInView, Span, Geo.GroupBlockCount,
           Geo.BlockBitmapBlock, Geo.Overhead, Geo.BlocksPerGroup, FirstBit, FromLoHi32, DecrLoHi16, SameOutside,
           BlockBits, Geo.GroupCount, Geo.GroupOf, Geo.GroupStart, SetBits, Geo.IsMetadata, SameInodePart,
           SameBlockPart,
           Geo.InodeBitmapBlock, OnlyBlock;
      var num := g.GroupOf(begin);
      var desc, start := groupDescs[num], g.GroupStart(num);
      RegisterFacts(g, memory[..], desc, books.marked, num, begin, end);
      RegisteredGroupOk(g, memory[..], desc, books.marked, num, begin, end);
      ghost var before, descs, marked2 := memory[..], groupDescs[..], books.marked + Span(begin, end - begin);
      var base := FirstBit(g, FromLoHi32(desc.blockBitmap));
      BitmapSetBits(memory, base + (begin - start), base + (end - start));
      BitmapBlocksInGroup(g, num);
      MetadataWritten(g, before, memory[..], g.BlockBitmapBlock(num));
      groupDescs[num] := desc.(freeBlocks := DecrLoHi16(desc.freeBlocks, end - begin));
      BlockPartChanged(desc, DecrLoHi16(desc.freeBlocks, end - begin));
      forall other | 0 <= other < g.GroupCount()
        ensures GroupOk(g, memory[..], groupDescs[other], marked2, other)
        ensures InodesOk(g, memory[..], groupDescs[other], books.taken, books.dirs, other)
      {
        BitmapBlocksApart(g, num, other);
        SameParts(descs[other]);
        if other != num {
          OtherGroupUnmarked(g, books.marked, num, begin, end, other);
          OtherGroupKept(g, before, memory[..], descs[other], groupDescs[other], books.marked, marked2, other,
                         g.BlockBitmapBlock(num));
        }
        OtherInodesKept(g, before, memory[..], descs[other], groupDescs[other], books, books.taken, books.dirs, other,
                        g.BlockBitmapBlock(num));
      }
      books := books.(marked := marked2);
    }

    /** add_inode: whether there is a group for the inode. */
    method AddInode(no: nat, isDir: bool) returns (ok: bool)
      requires Valid() && EXT4_FIRST_NON_RSV_INODE < no && no !in books.taken && no !in books.dirs
      modifies `books, memory, groupDescs
      ensures Valid() && DataKept(g, old(memory[..]), memory[..])
      ensures ok <==> no <= g.GroupCount() * g.InodesPerGroup()
      ensures books == if ok then old(books).(taken := old(books).taken + {no},
                                              dirs := old(books).dirs + if isDir then {no} else {})
                       else old(books)
    {
      hide GroupOk, InodesOk, DataKept, Geo.GroupsHoldMetadata, TakenInView, Geo.BlockBitmapBlock, FirstBit, FromLoHi32,
           DecrLoHi16, IncrLoHi16, SameOutside, BlockBits, Geo.GroupCount, SetBits, Geo.IsMetadata, SameInodePart,
           SameBlockPart, Geo.InodeBitmapBlock, Geo.InodesPerGroup, OnlyBlock, Geo.InodeGroup, Geo.InodeIndex;
      InodeGroupExists(g, no);
      DataKeptReflexive(g, memory[..]);
      var num := g.InodeGroup(no);
      if num >= g.GroupCount() { return false; }
      var k, desc := g.InodeIndex(no), groupDescs[num];
      ghost var before, descs := memory[..], groupDescs[..];
      ghost var taken2, dirs2 := books.taken + {no}, books.dirs + if isDir then {no} else {};
      InodeFacts(g, before, desc, books, num, no, isDir);
      BitmapSetBit(memory, FirstBit(g, FromLoHi32(desc.inodeBitmap)) + k);
      groupDescs[num] := desc.(freeInodes := DecrLoHi16(desc.freeInodes, 1),
                               usedDirs := if isDir then IncrLoHi16(desc.usedDirs, 1) else desc.usedDirs);
      BitmapBlocksInGroup(g, num);
      MetadataWritten(g, before, memory[..], g.InodeBitmapBlock(num));
      forall other | 0 <= other < g.GroupCount()
        ensures GroupOk(g, memory[..], groupDescs[other], books.marked, other)
        ensures InodesOk(g, memory[..], groupDescs[other], taken2, dirs2, other)
      {
        BitmapBlocksApart(g, other, num);
        SameParts(descs[other]);
        OtherGroupKept(g, before, memory[..], descs[other], groupDescs[other], books.marked, books.marked, other,
                       g.InodeBitmapBlock(num));
        if other != num {
          OtherInodesSame(g, books, num, no, other, isDir);
          OtherInodesKept(g, before, memory[..], descs[other], groupDescs[other], books, taken2, dirs2, other,
                          g.InodeBitmapBlock(num));
        }
      }
      books := books.(taken := taken2, dirs := dirs2);
      return true;
    }

    /** add_reserved_inode, as far as its group is concerned. */
    method AddReservedInode(no: nat, isDir: bool)
      requires Valid() && 0 < no <= EXT4_FIRST_NON_RSV_INODE && no !in books.dirs
      modifies `books, groupDescs
      ensures Valid() && books == old(books).(dirs := old(books).dirs + if isDir then {no} else {})
    {
      hide GroupOk, InodesOk, Geo.GroupsHoldMetadata, IncrLoHi16, Geo.GroupCount, SameBlockPart, SameInodePart,
           Geo.InodeBitmapBlock,
           Geo.InodesPerGroup, Geo.InodeGroup, BlockBits, FirstBit, Geo.BlockBitmapBlock, OnlyBlock, SameOutside;
      ReservedInGroupZero(g, no);
      GroupCountFits(g);
      if isDir {
        var num := g.InodeGroup(no);
        var desc := groupDescs[num];
        ghost var descs := groupDescs[..];
        groupDescs[num] := desc.(usedDirs := IncrLoHi16(desc.usedDirs, 1));
        DirCounted(g, memory[..], desc, books, num, no);
        forall other | 0 <= other < g.GroupCount()
          ensures GroupOk(g, memory[..], groupDescs[other], books.marked, other)
          ensures InodesOk(g, memory[..], groupDescs[other], books.taken, books.dirs + {no}, other)
        {
          SameParts(descs[other]);
          NothingWritten(g, memory[..], g.InodeBitmapBlock(num));
          BitmapBlocksApart(g, other, num);
          OtherGroupKept(g, memory[..], memory[..], descs[other], groupDescs[other], books.marked, books.marked, other,
                         g.InodeBitmapBlock(num));
          if other != num {
            OtherDirsSame(g, books.dirs, num, no, other);
            OtherInodesKept(g, memory[..], memory[..], descs[other], groupDescs[other], books, books.taken,
                            books.dirs + {no}, other, g.InodeBitmapBlock(num));
          }
        }
        books := books.(dirs := books.dirs + {no});
      }
    }

    /** The superblock's counts, as finalize_block_groups_on_disk adds them up. Here only the 32-bit
        from_lo_hi is declared, so the high half of a group's count of free inodes is lost. */
    method FinalizeBlockGroupsOnDisk() returns (freeBlocks: Halves, freeInodes: nat)
      requires Valid()
      ensures FromLoHi32(freeBlocks) == |FreeBelow(g, books.marked, g.blockCount)|
      ensures freeInodes == LowCounts(g, books.taken, g.GroupCount())
      ensures freeInodes == |FreeInodes(g, books.taken, g.GroupCount())| <==> CountsFit(g, books.taken, g.GroupCount())
    {
      hide SetLoHi32, FromLoHi32, FromLoHi16, Stores16, FreeBelow, FreeBlocks, BitmapOk, Geo.GroupCount,
           Geo.GroupsHoldMetadata, Geo.GroupStart, Geo.BlocksPerGroup, Geo.Overhead, Geo.GroupBlockCount, FirstBit,
           Geo.BlockBitmapBlock, FreeInodes, DirsIn, Geo.InodesPerGroup, Geo.InodeBitmapBlock, GroupFree, CountsFit;
      GroupCountFits(g);
      freeBlocks, freeInodes := SetLoHi32(0), 0;
      LoHi32RoundTrip(0);
      NoneFreeBelow(g, books.marked);
      var i: nat := 0;
      while i < g.GroupCount()
        invariant i <= g.GroupCount()
        invariant FromLoHi32(freeBlocks) == |FreeBelow(g, books.marked, g.GroupStart(i))|
        invariant freeInodes == LowCounts(g, books.taken, i)
      {
        assert i < U16;
        assert GroupOk(g, memory[..], groupDescs[i], books.marked, i);
        assert InodesOk(g, memory[..], groupDescs[i], books.taken, books.dirs, i);
        FreeInGroup(g, books.marked, i);
        FreeBelowBound(g, books.marked, g.GroupStart(i + 1));
        BlocksReadWide(g, groupDescs[i].freeBlocks, books.marked, i);
        Incremented(freeBlocks, FromLoHi32(groupDescs[i].freeBlocks));
        InodesReadWide(g, groupDescs[i].freeInodes, books.taken, i);
        freeInodes := (freeInodes + FromLoHi32(groupDescs[i].freeInodes)) % U32;
        freeBlocks := IncrLoHi32(freeBlocks, FromLoHi32(groupDescs[i].freeBlocks));
        i := i + 1;
      }
      FreeBelowBound(g, books.marked, g.GroupStart(i));
      LowCountsRight(g, books.taken, i);
    }
  }

  // --- Descriptors ---------------------------------------------------------------------

  predicate SameBlockPart(a: GroupDesc, b: GroupDesc) {
    a.blockBitmap == b.blockBitmap && a.freeBlocks == b.freeBlocks
  }

  predicate SameInodePart(a: GroupDesc, b: GroupDesc) {
    && a.inodeBitmap == b.inodeBitmap && a.inodeTable == b.inodeTable && a.freeInodes == b.freeInodes
    && a.usedDirs == b.usedDirs
  }

  lemma SameParts(desc: GroupDesc)
    ensures SameBlockPart(desc, desc) && SameInodePart(desc, desc)
    ensures forall h, h2 :: SameBlockPart(desc, desc.(freeInodes := h, usedDirs := h2))
    ensures forall h :: SameBlockPart(desc, desc.(usedDirs := h)) && SameInodePart(desc, desc.(freeBlocks := h))
  {
  }

  lemma BlockPartChanged(desc: GroupDesc, free: Halves)
    ensures SameInodePart(desc, desc.(freeBlocks := free))
  {
  }

  lemma NothingWritten(g: Geo, memory: seq<bv32>, block: nat)
    ensures OnlyBlock(g, memory, memory, block)
  {
  }

  lemma DataKeptReflexive(g: Geo, memory: seq<bv32>)
    requires g.Valid()
    ensures DataKept(g, memory, memory)
  {
  }

  /** Writing the bitmap of another group leaves the earlier groups as they are. */
  lemma EarlierGroupsKept(g: Geo, before: seq<bv32>, after: seq<bv32>, descs: seq<GroupDesc>, descs2: seq<GroupDesc>,
                          books: Books, n: nat, written: nat)
    requires g.Valid() && n < g.GroupCount() <= |descs| == |descs2| && GroupsOk(g, before, descs, books, n)
    requires OnlyBlock(g, before, after, written) && forall i :: 0 <= i < n ==> descs2[i] == descs[i]
    requires written == g.BlockBitmapBlock(n) || written == g.InodeBitmapBlock(n)
    ensures GroupsOk(g, after, descs2, books, n)
  {
    hide GroupOk, InodesOk, OnlyBlock, Geo.GroupCount, Geo.BlockBitmapBlock, Geo.InodeBitmapBlock,
         Geo.GroupsHoldMetadata;
    forall num | 0 <= num < n
      ensures GroupOk(g, after, descs2[num], books.marked, num)
      ensures InodesOk(g, after, descs2[num], books.taken, books.dirs, num)
    {
      BitmapBlocksApart(g, num, n);
      BitmapBlocksApart(g, n, num);
      OtherGroupKept(g, before, after, descs[num], descs2[num], books.marked, books.marked, num, written);
      OtherInodesKept(g, before, after, descs[num], descs2[num], books, books.taken, books.dirs, num, written);
    }
  }

  // --- Inodes --------------------------------------------------------------------------

  lemma NewInodesFacts(g: Geo, num: nat, words: nat)
    requires g.Valid() && num < g.GroupCount() && HoldsVolume(g, words)
    ensures var v := InodeViewOf(g, num);
            && v.base % 32 == 0 && v.bits % 32 == 0 && v.base + v.bits + 32 <= 32 * words
            && v.overhead < v.count <= v.bits && v.count < U32
            && Stores16(SetLoHi16(v.count - v.overhead), |FreeBlocks(v, {})|)
            && Stores16(Halves(0, 0), |DirsIn(v, {})|)
    ensures FromLoHi32(SetLoHi32(g.InodeBitmapBlock(num))) == g.InodeBitmapBlock(num)
    ensures FromLoHi32(SetLoHi32(g.InodeTableBlock(num))) == g.InodeTableBlock(num)
  {
    hide Geo.GroupCount, Geo.InodeBitmapBlock, Geo.InodeTableBlock, Geo.InodesPerGroup, Geo.BlocksPerGroup,
         Geo.GroupsHoldMetadata, BlockBits, FreeBlocks, HoldsVolume;
    TableBehindBitmap(g, num);
    InodesPerGroupBounds(g);
    InodeBitmapFits(g, num, words);
    NewFreeBlocks(InodeViewOf(g, num));
    LoHi32RoundTrip(g.InodeBitmapBlock(num));
    LoHi32RoundTrip(g.InodeTableBlock(num));
    LoHi16RoundTrip(InodeViewOf(g, num).count - InodeViewOf(g, num).overhead);
    BitsOfBlock(g);
  }

  lemma TableBehindBitmap(g: Geo, num: nat)
    requires EXT4_64BIT_DESC_SIZE <= g.blockSize
    ensures g.InodeTableBlock(num) == g.InodeBitmapBlock(num) + 1
  {
  }

  lemma BitsOfBlock(g: Geo)
    requires g.Valid()
    ensures BlockBits(g) == 8 * g.blockSize <= 0x8_0000
  {
  }

  lemma InodeBitmapFits(g: Geo, num: nat, words: nat)
    requires g.Valid() && num < g.GroupCount() && HoldsVolume(g, words)
    ensures var base := FirstBit(g, g.InodeBitmapBlock(num));
            && base % 32 == 0 && BlockBits(g) % 32 == 0 && base + BlockBits(g) + 32 <= 32 * words
    ensures g.InodeBitmapBlock(num) < U32
  {
    hide Geo.BlockBitmapBlock, Geo.GroupsHoldMetadata, BlockBits;
    InodeBitmapBlockFits(g, num);
    BlocksFitBitmap(g);
    var w, b := BlockBits(g), g.InodeBitmapBlock(num);
    ModMultiple(w, b);
    MulSpan(w, b, b + 1);
    MulSpan(w, b + 1, g.blockCount);
  }

  lemma InodeBitmapBlockFits(g: Geo, num: nat)
    requires g.Valid() && num < g.GroupCount()
    ensures g.InodeBitmapBlock(num) + 1 < g.blockCount
  {
    hide Geo.InodeTableBlocks, Geo.GdtBlockCount, Geo.GroupStart, Geo.GroupCount, Geo.BlocksPerGroup, Geo.HasSbCopy;
    MetadataTiles(g, num);
  }

  /** There is a group for an inode exactly if there are enough inodes. */
  lemma InodeGroupExists(g: Geo, no: nat)
    requires g.Valid() && 0 < no
    ensures 0 < g.InodesPerGroup()
    ensures g.InodeGroup(no) < g.GroupCount() <==> no <= g.GroupCount() * g.InodesPerGroup()
  {
    hide Geo.GroupCount, Geo.InodesPerGroup, Geo.GroupsHoldMetadata, Geo.InodeGroup, Geo.InodeIndex;
    InodesPerGroupBounds(g);
    InodePlace(g, no);
    var per, num, count := g.InodesPerGroup(), g.InodeGroup(no), g.GroupCount();
    if num < count {
      MulMonotone(per, num + 1, count);
      assert per * (num + 1) == per * num + per;
    } else {
      MulMonotone(per, count, num);
    }
  }

  lemma ReservedInGroupZero(g: Geo, no: nat)
    requires g.Valid() && 0 < no <= EXT4_FIRST_NON_RSV_INODE
    ensures 0 < g.InodesPerGroup() && g.InodeGroup(no) == 0
  {
    hide Geo.GroupsHoldMetadata, Geo.InodesPerGroup;
    InodesPerGroupBounds(g);
  }

  /** The bitmap and the counts of a group once an inode has been entered. */
  ghost predicate TakenInView(memory: seq<bv32>, v: GroupView, desc: GroupDesc, books: Books, no: nat, isDir: bool) {
    && v.start <= no
    && var bit := v.base + (no - v.start);
       && bit / 32 < |memory|
       && var after, taken2 := SetBits(memory, bit, bit + 1), books.taken + {no};
          && SameOutside(memory, after, v.base, v.base + v.bits) && BitmapOk(after, v, taken2)
          && Stores16(DecrLoHi16(desc.freeInodes, 1), |FreeBlocks(v, taken2)|)
          && Stores16(if isDir then IncrLoHi16(desc.usedDirs, 1) else desc.usedDirs,
                      |DirsIn(v, books.dirs + if isDir then {no} else {})|)
  }

  lemma InodeTakenInView(memory: seq<bv32>, v: GroupView, desc: GroupDesc, books: Books, no: nat, isDir: bool)
    requires v.start + v.overhead <= no < v.start + v.count && v.count <= v.bits && v.count < U32
    requires no !in books.taken && no !in books.dirs && v.base + v.bits + 32 <= 32 * |memory|
    requires BitmapOk(memory, v, books.taken) && Stores16(desc.freeInodes, |FreeBlocks(v, books.taken)|)
    requires Stores16(desc.usedDirs, |DirsIn(v, books.dirs)|)
    ensures TakenInView(memory, v, desc, books, no, isDir)
  {
    hide SameOutside, BitmapOk, FreeBlocks, Stores16, SetBits, DecrLoHi16, IncrLoHi16, DirsIn;
    SpanGrows(no, 0);
    RegisterInView(memory, v, desc.freeInodes, books.taken, no, no + 1);
    OneDirMore(v, books.dirs, no);
    if isDir {
      OneMore16(desc.usedDirs, |DirsIn(v, books.dirs)|);
    } else {
      assert books.dirs + {} == books.dirs;
    }
  }

  lemma OneMore16(h: Halves, n: nat)
    requires Stores16(h, n) && n + 1 < U32
    ensures Stores16(IncrLoHi16(h, 1), n + 1)
  {
    hide FromLoHi16, IncrLoHi16;
    Incremented16(h, 1);
  }

  lemma OneDirMore(v: GroupView, dirs: set<nat>, no: nat)
    requires v.start <= no < v.start + v.count && no !in dirs
    ensures |DirsIn(v, dirs + {no})| == |DirsIn(v, dirs)| + 1 <= v.count
  {
    assert DirsIn(v, dirs + {no}) == DirsIn(v, dirs) + {no};
    SpanSize(v.start, v.count);
    assert DirsIn(v, dirs + {no}) <= Span(v.start, v.count);
    SubsetSize(DirsIn(v, dirs + {no}), Span(v.start, v.count));
  }

  /** What add_inode does to the group of the inode. */
  lemma InodeFacts(g: Geo, memory: seq<bv32>, desc: GroupDesc, books: Books, num: nat, no: nat, isDir: bool)
    requires g.Valid() && EXT4_FIRST_NON_RSV_INODE < no && 0 < g.InodesPerGroup() && num == g.InodeGroup(no)
    requires num < g.GroupCount() && HoldsVolume(g, |memory|) && no !in books.taken && no !in books.dirs
    requires InodesOk(g, memory, desc, books.taken, books.dirs, num)
    ensures var bit := FirstBit(g, FromLoHi32(desc.inodeBitmap)) + g.InodeIndex(no);
            && bit / 32 < |memory|
            && var after := SetBits(memory, bit, bit + 1);
               && OnlyBlock(g, memory, after, g.InodeBitmapBlock(num))
               && InodesOk(g, after, desc.(freeInodes := DecrLoHi16(desc.freeInodes, 1),
                                           usedDirs := if isDir then IncrLoHi16(desc.usedDirs, 1) else desc.usedDirs),
                           books.taken + {no}, books.dirs + if isDir then {no} else {}, num)
  {
    hide SameOutside, BitmapOk, FreeBlocks, FromLoHi16, FromLoHi32, SetBits, DecrLoHi16, IncrLoHi16, DirsIn, FirstBit,
         BlockBits, Geo.GroupCount, Geo.InodesPerGroup, Geo.InodeBitmapBlock, Geo.GroupsHoldMetadata, Geo.InodeIndex,
         Geo.InodeGroup, HoldsVolume;
    InodePlace(g, no);
    NewInodesFacts(g, num, |memory|);
    var v := InodeViewOf(g, num);
    assert v.start + g.InodeIndex(no) == no;
    InodeTakenInView(memory, v, desc, books, no, isDir);
  }

  /** The same for a directory among the reserved inodes. */
  lemma DirCounted(g: Geo, memory: seq<bv32>, desc: GroupDesc, books: Books, num: nat, no: nat)
    requires g.Valid() && 0 < no && 0 < g.InodesPerGroup() && num == g.InodeGroup(no) && num < g.GroupCount()
    requires no !in books.dirs && InodesOk(g, memory, desc, books.taken, books.dirs, num)
    ensures InodesOk(g, memory, desc.(usedDirs := IncrLoHi16(desc.usedDirs, 1)), books.taken, books.dirs + {no}, num)
  {
    hide BitmapOk, FreeBlocks, FromLoHi16, FromLoHi32, IncrLoHi16, DirsIn, FirstBit, BlockBits, Geo.GroupCount,
         Geo.InodesPerGroup, Geo.InodeBitmapBlock, Geo.GroupsHoldMetadata, Geo.InodeIndex, Geo.InodeGroup;
    InodesPerGroupBounds(g);
    InodePlace(g, no);
    OneDirMore(InodeViewOf(g, num), books.dirs, no);
    Incremented16(desc.usedDirs, 1);
  }

  /** An inode of one group is none of another. */
  lemma OtherDirsSame(g: Geo, s: set<nat>, num: nat, no: nat, other: nat)
    requires g.Valid() && 0 < no && 0 < g.InodesPerGroup() && num == g.InodeGroup(no) && other < g.GroupCount()
    requires other != num
    ensures var v := InodeViewOf(g, other); SameMarks(s, s + {no}, v.start, v.start + v.count)
  {
    hide FirstBit, BlockBits, Geo.GroupCount, Geo.InodesPerGroup, Geo.InodeBitmapBlock, Geo.GroupsHoldMetadata,
         Geo.InodeIndex, Geo.InodeGroup;
    InodePlace(g, no);
    var per := g.InodesPerGroup();
    if other < num {
      MulMonotone(per, other + 1, num);
      assert per * (other + 1) == per * other + per;
    } else {
      MulMonotone(per, num + 1, other);
      assert per * (num + 1) == per * num + per;
    }
  }

  lemma OtherInodesSame(g: Geo, books: Books, num: nat, no: nat, other: nat, isDir: bool)
    requires g.Valid() && 0 < no && 0 < g.InodesPerGroup() && num == g.InodeGroup(no) && other < g.GroupCount()
    requires other != num
    ensures var v := InodeViewOf(g, other);
            && SameMarks(books.taken, books.taken + {no}, v.start, v.start + v.count)
            && SameMarks(books.dirs, books.dirs + if isDir then {no} else {}, v.start, v.start + v.count)
  {
    hide FirstBit, BlockBits, Geo.GroupCount, Geo.InodesPerGroup, Geo.InodeBitmapBlock, Geo.GroupsHoldMetadata,
         Geo.InodeIndex, Geo.InodeGroup;
    OtherDirsSame(g, books.taken, num, no, other);
    OtherDirsSame(g, books.dirs, num, no, other);
  }

  /** Work elsewhere leaves the inodes of a group as they are. */
  lemma OtherInodesKept(g: Geo, before: seq<bv32>, after: seq<bv32>, desc: GroupDesc, desc2: GroupDesc, books: Books,
                        taken2: set<nat>, dirs2: set<nat>, other: nat, written: nat)
    requires g.Valid() && other < g.GroupCount() && OnlyBlock(g, before, after, written)
    requires written != g.InodeBitmapBlock(other) && SameInodePart(desc, desc2)
    requires InodesOk(g, before, desc, books.taken, books.dirs, other)
    requires var v := InodeViewOf(g, other);
             && SameMarks(books.taken, taken2, v.start, v.start + v.count)
             && SameMarks(books.dirs, dirs2, v.start, v.start + v.count)
    ensures InodesOk(g, after, desc2, taken2, dirs2, other)
  {
    hide SameOutside, BlockBits, Geo.GroupCount, BitmapOk, Geo.InodeBitmapBlock, Geo.InodesPerGroup, FirstBit,
         Geo.GroupsHoldMetadata, FromLoHi16, FromLoHi32;
    BlocksApart(g, written, g.InodeBitmapBlock(other));
    var v := InodeViewOf(g, other);
    forall i: nat ensures ShouldBeSet(v, taken2, i) <==> ShouldBeSet(v, books.taken, i) {
      assert v.start + i < v.start + v.count || v.count <= i;
    }
    assert FreeBlocks(v, taken2) == FreeBlocks(v, books.taken);
    assert DirsIn(v, dirs2) == DirsIn(v, books.dirs);
    OtherBitmapKept(before, after, FirstBit(g, written), FirstBit(g, written) + BlockBits(g), v, books.taken, taken2);
  }

  /** The inodes of the first n groups that are neither reserved nor taken. */
  ghost function FreeInodes(g: Geo, taken: set<nat>, n: nat): set<nat>
    requires g.Valid()
  {
    set no: nat | no <= n * g.InodesPerGroup() && AtLeast(no, EXT4_FIRST_NON_RSV_INODE + 1) && no !in taken
  }

  lemma NoInodesBelow(g: Geo, taken: set<nat>)
    requires g.Valid()
    ensures FreeInodes(g, taken, 0) == {}
  {
  }

  /** The free inodes up to the end of a group are those of the groups before and its own. */
  lemma FreeInodesInGroup(g: Geo, taken: set<nat>, num: nat)
    requires g.Valid() && num < g.GroupCount()
    ensures |FreeInodes(g, taken, num + 1)| == |FreeInodes(g, taken, num)| + |FreeBlocks(InodeViewOf(g, num), taken)|
    ensures |FreeInodes(g, taken, num + 1)| < U32
  {
    hide Geo.Valid, Geo.GroupCount, FreeInodes, FreeBlocks, InodeViewOf;
    var v := InodeViewOf(g, num);
    var own := Shifted(FreeBlocks(v, taken), v.start);
    var below, upTo := FreeInodes(g, taken, num), FreeInodes(g, taken, num + 1);
    forall no: nat
      ensures no in upTo <==> no in below || no in own
      ensures !(no in below && no in own)
    {
      FreeInodeOfGroup(g, taken, num, no);
      assert no in own <==> v.start <= no && no - v.start in FreeBlocks(v, taken) by {
        if v.start <= no { assert Plus(v.start, no - v.start) == no; }
      }
    }
    assert upTo == below + own;
    ShiftedSize(FreeBlocks(v, taken), v.start);
    FreeInodesBound(g, taken, num + 1);
  }

  lemma FreeInodeOfGroup(g: Geo, taken: set<nat>, num: nat, no: nat)
    requires g.Valid() && num < g.GroupCount()
    ensures var v := InodeViewOf(g, num);
            && (no in FreeInodes(g, taken, num + 1) <==>
                  no in FreeInodes(g, taken, num) || (v.start <= no && no - v.start in FreeBlocks(v, taken)))
            && !(no in FreeInodes(g, taken, num) && v.start <= no)
  {
    hide Geo.GroupsHoldMetadata, Geo.GroupCount, Geo.InodesPerGroup, FirstBit, BlockBits, Geo.InodeBitmapBlock;
    InodesPerGroupBounds(g);
    var per := g.InodesPerGroup();
    assert (num + 1) * per == per * num + per && num * per == per * num;
    if num > 0 { MulMonotone(per, 1, num); }
  }

  /** The free inodes of one group. */
  ghost function GroupFree(g: Geo, taken: set<nat>, num: nat): nat
    requires g.Valid() && num < g.GroupCount()
  {
    |FreeBlocks(InodeViewOf(g, num), taken)|
  }

  /** The low halves of the counts of the first n groups, added up. */
  ghost function LowCounts(g: Geo, taken: set<nat>, n: nat): nat
    requires g.Valid() && n <= g.GroupCount()
  {
    if n == 0 then 0 else LowCounts(g, taken, n - 1) + GroupFree(g, taken, n - 1) % U16
  }

  /** No group has a count with a high half. */
  ghost predicate CountsFit(g: Geo, taken: set<nat>, n: nat)
    requires g.Valid() && n <= g.GroupCount()
  {
    forall num :: 0 <= num < n ==> GroupFree(g, taken, num) < U16
  }

  /** Adding up the low halves gives the number of free inodes exactly when all high halves are 0. */
  lemma {:induction false} LowCountsRight(g: Geo, taken: set<nat>, n: nat)
    requires g.Valid() && n <= g.GroupCount()
    ensures LowCounts(g, taken, n) <= |FreeInodes(g, taken, n)| < U32
    ensures LowCounts(g, taken, n) == |FreeInodes(g, taken, n)| <==> CountsFit(g, taken, n)
  {
    hide Geo.Valid, Geo.GroupCount, FreeInodes, FreeBlocks, InodeViewOf;
    if n == 0 {
      NoInodesBelow(g, taken);
    } else {
      LowCountsRight(g, taken, n - 1);
      FreeInodesInGroup(g, taken, n - 1);
      assert CountsFit(g, taken, n) <==> CountsFit(g, taken, n - 1) && GroupFree(g, taken, n - 1) < U16;
    }
  }

  /** With numbers given out one by one, the count is right exactly when groups are small enough,
      or so few inodes are left that they are all in the last group. */
  lemma CountsFitIff(g: Geo, n: nat)
    requires g.Valid() && EXT4_FIRST_NON_RSV_INODE + n <= g.GroupCount() * g.InodesPerGroup()
    ensures CountsFit(g, Span(EXT4_FIRST_NON_RSV_INODE + 1, n), g.GroupCount())
            <==> g.InodesPerGroup() < U16
                 || g.GroupCount() * g.InodesPerGroup() - EXT4_FIRST_NON_RSV_INODE - n < U16
  {
    hide Geo.GroupsHoldMetadata, Geo.GroupCount, Geo.InodesPerGroup, GroupFree, Span;
    var taken, count := Span(EXT4_FIRST_NON_RSV_INODE + 1, n), g.GroupCount();
    GroupCountFits(g);
    FreeInodesLeft(g, n);
    forall num | 0 <= num < count
      ensures GroupFree(g, taken, num) <= g.InodesPerGroup()
      ensures GroupFree(g, taken, num) <= |FreeInodes(g, taken, count)|
    {
      GroupFreeBound(g, taken, num);
      FreeInodesGrow(g, taken, num + 1, count);
    }
    if g.InodesPerGroup() >= U16 { LastGroupFree(g, n); }
  }

  lemma GroupFreeBound(g: Geo, taken: set<nat>, num: nat)
    requires g.Valid() && num < g.GroupCount()
    ensures GroupFree(g, taken, num) <= g.InodesPerGroup()
    ensures GroupFree(g, taken, num) <= |FreeInodes(g, taken, num + 1)|
  {
    hide Geo.GroupsHoldMetadata, Geo.GroupCount, Geo.InodesPerGroup, FreeBlocks, FreeInodes, FirstBit, BlockBits,
         Geo.InodeBitmapBlock;
    FreeInodesInGroup(g, taken, num);
    FreeBlocksBound(InodeViewOf(g, num), taken);
  }

  lemma FreeInodesGrow(g: Geo, taken: set<nat>, m: nat, n: nat)
    requires g.Valid() && m <= n
    ensures |FreeInodes(g, taken, m)| <= |FreeInodes(g, taken, n)|
  {
    hide Geo.GroupsHoldMetadata, Geo.InodesPerGroup;
    MulMonotone(g.InodesPerGroup(), m, n);
    SubsetSize(FreeInodes(g, taken, m), FreeInodes(g, taken, n));
  }

  /** Unless numbers have reached the last group, all its inodes are free; if they have, nothing is
      left in the others. */
  lemma LastGroupFree(g: Geo, n: nat)
    requires g.Valid() && EXT4_FIRST_NON_RSV_INODE + n <= g.GroupCount() * g.InodesPerGroup()
    ensures 0 < g.GroupCount()
    ensures var last := GroupFree(g, Span(EXT4_FIRST_NON_RSV_INODE + 1, n), g.GroupCount() - 1);
            last == g.InodesPerGroup() || last == g.GroupCount() * g.InodesPerGroup() - EXT4_FIRST_NON_RSV_INODE - n
  {
    hide Geo.GroupsHoldMetadata, Geo.GroupCount, Geo.InodesPerGroup, FirstBit, BlockBits, Geo.InodeBitmapBlock, AtLeast;
    GroupCountFits(g);
    InodesPerGroupBounds(g);
    var used, num, per := EXT4_FIRST_NON_RSV_INODE + n, g.GroupCount() - 1, g.InodesPerGroup();
    assert (num + 1) * per == per * num + per;
    if num > 0 { MulMonotone(per, 1, num); }
    var begin: nat := if used <= per * num then 0 else used - per * num;
    var free, rest := FreeBlocks(InodeViewOf(g, num), Span(EXT4_FIRST_NON_RSV_INODE + 1, n)), Span(begin, per - begin);
    forall i: nat ensures i in free <==> i in rest {
      AtLeastIs(per * num + 1 + i);
      AtLeastIs(i);
    }
    assert free == rest;
    SpanSize(begin, per - begin);
  }

  lemma AtLeastIs(c: nat)
    ensures forall start: nat :: AtLeast(c, start) <==> start <= c
  {
  }

  /** The groups are small enough for any number of files exactly up to blocks of 16384 bytes. */
  lemma SmallGroups(g: Geo)
    requires g.Valid()
    ensures g.InodesPerGroup() < U16 <==> g.blockSize <= 16384
  {
    hide Geo.GroupsHoldMetadata;
    if g.blockSize <= 16384 {
      BlocksPerGroupBound(g);
      Scaled(g.BlocksPerGroup(), g.blockSize, 16384);
      MulMonotone(g.blockSize, g.BlocksPerGroup(), 65528);
    } else {
      assert g.BlocksPerGroup() == 65528 && g.blockSize >= 17408;
    }
  }

  /** A volume with 32768-byte blocks and two groups of 131056 inodes: 262101 are free, the
      superblock says 131029. */
  lemma InodeCountCutShort()
    ensures var g := Geo(32768, 70000, 100);
            && g.Valid() && g.GroupCount() == 2 && |FreeInodes(g, {}, 2)| == 262101 && LowCounts(g, {}, 2) == 131029
  {
    var g := Geo(32768, 70000, 100);
    assert g.GroupCount() == 2 && g.InodesPerGroup() == 131056;
    assert Span(EXT4_FIRST_NON_RSV_INODE + 1, 0) == {};
    FreeInodesLeft(g, 0);
    hide FreeInodes, FreeBlocks;
    NewFreeBlocks(InodeViewOf(g, 0));
    NewFreeBlocks(InodeViewOf(g, 1));
    assert LowCounts(g, {}, 1) == 131045 % U16 && LowCounts(g, {}, 2) == 131045 % U16 + 131056 % U16;
  }

  lemma InodesReadWide(g: Geo, count: Halves, taken: set<nat>, num: nat)
    requires g.Valid() && num < g.GroupCount() && Stores16(count, |FreeBlocks(InodeViewOf(g, num), taken)|)
    ensures (LowCounts(g, taken, num) + FromLoHi32(count)) % U32 == LowCounts(g, taken, num + 1)
  {
    hide Geo.Valid, Geo.GroupCount, FreeBlocks, InodeViewOf, FromLoHi32, FromLoHi16, FreeInodes;
    ReadAsWide(count, GroupFree(g, taken, num));
    LowCountsRight(g, taken, num + 1);
  }

  /** The counts of free blocks have no high half. */
  lemma BlocksReadWide(g: Geo, count: Halves, marked: set<nat>, num: nat)
    requires g.Valid() && num < g.GroupCount() && Stores16(count, |FreeBlocks(ViewOf(g, num), marked)|)
    ensures FromLoHi32(count) == |FreeBlocks(ViewOf(g, num), marked)|
  {
    hide Geo.GroupsHoldMetadata, Geo.GroupCount, FreeBlocks, FromLoHi32, FromLoHi16, Geo.GroupBlockCount,
         Geo.GroupStart, Geo.Overhead, BitmapBase, BlockBits;
    FreeCountFits(g, num);
    FreeBlocksBound(ViewOf(g, num), marked);
    ReadAsWide(count, |FreeBlocks(ViewOf(g, num), marked)|);
  }

  /** What is left when the numbers behind the reserved ones have been given out one by one. */
  lemma FreeInodesLeft(g: Geo, n: nat)
    requires g.Valid() && EXT4_FIRST_NON_RSV_INODE + n <= g.GroupCount() * g.InodesPerGroup()
    ensures |FreeInodes(g, Span(EXT4_FIRST_NON_RSV_INODE + 1, n), g.GroupCount())|
            == g.GroupCount() * g.InodesPerGroup() - EXT4_FIRST_NON_RSV_INODE - n
  {
    hide Geo.GroupsHoldMetadata, Geo.GroupCount, Geo.InodesPerGroup;
    var first, total := EXT4_FIRST_NON_RSV_INODE + 1 + n, g.GroupCount() * g.InodesPerGroup();
    SpanSize(first, total + 1 - first);
    assert FreeInodes(g, Span(EXT4_FIRST_NON_RSV_INODE + 1, n), g.GroupCount()) == Span(first, total + 1 - first);
  }

  lemma FreeInodesBound(g: Geo, taken: set<nat>, n: nat)
    requires g.Valid() && n <= g.GroupCount()
    ensures |FreeInodes(g, taken, n)| < U32
  {
    hide Geo.GroupsHoldMetadata, Geo.GroupCount, Geo.InodesPerGroup;
    InodeCountFits(g);
    var per := g.InodesPerGroup();
    MulMonotone(per, n, g.GroupCount());
    SpanSize(0, n * per + 1);
    SubsetSize(FreeInodes(g, taken, n), Span(0, n * per + 1));
  }

  /** The blocks of the volume below limit that are neither metadata nor registered. */
  ghost function FreeBelow(g: Geo, marked: set<nat>, limit: nat): set<nat>
    requires g.Valid()
  {
    set b: nat | b < limit && b < g.blockCount && AtLeast(b, g.FirstDataBlock()) && !g.IsMetadata(b) && b !in marked
  }

  lemma NoneFreeBelow(g: Geo, marked: set<nat>)
    requires g.Valid()
    ensures FreeBelow(g, marked, g.GroupStart(0)) == {}
  {
  }

  ghost function Shifted(s: set<nat>, k: nat): set<nat> {
    set i | i in s :: Plus(k, i)
  }

  function Plus(k: nat, i: nat): nat { k + i }

  lemma {:induction false} ShiftedSize(s: set<nat>, k: nat)
    ensures |Shifted(s, k)| == |s|
  {
    if s != {} {
      var i :| i in s;
      ShiftedSize(s - {i}, k);
      assert Shifted(s, k) == Shifted(s - {i}, k) + {Plus(k, i)};
    }
  }

  lemma FreeBelowBound(g: Geo, marked: set<nat>, limit: nat)
    requires g.Valid()
    ensures |FreeBelow(g, marked, limit)| <= g.blockCount
    ensures g.blockCount <= limit ==> FreeBelow(g, marked, limit) == FreeBelow(g, marked, g.blockCount)
  {
    hide Geo.GroupsHoldMetadata, Geo.IsMetadata;
    SpanSize(0, g.blockCount);
    SubsetSize(FreeBelow(g, marked, limit), Span(0, g.blockCount));
  }

  /** The free blocks up to the end of a group are those of the groups before and its own. */
  lemma FreeInGroup(g: Geo, marked: set<nat>, num: nat)
    requires g.Valid() && num < g.GroupCount()
    ensures |FreeBelow(g, marked, g.GroupStart(num + 1))|
            == |FreeBelow(g, marked, g.GroupStart(num))| + |FreeBlocks(ViewOf(g, num), marked)|
  {
    hide Geo.GroupsHoldMetadata, Geo.GroupCount, Geo.Overhead, Geo.BlocksPerGroup, Geo.GroupStart, Geo.IsMetadata,
         BitmapBase, BlockBits;
    GroupFits(g, num);
    GroupFollows(g, num);
    var v := ViewOf(g, num);
    var own := Shifted(FreeBlocks(v, marked), v.start);
    var below, upTo := FreeBelow(g, marked, g.GroupStart(num)), FreeBelow(g, marked, g.GroupStart(num + 1));
    forall b: nat ensures b in upTo <==> b in below || b in own {
      if v.start <= b < g.GroupStart(num + 1) {
        MetadataOfGroup(g, num, b);
        assert b in own <==> b - v.start in FreeBlocks(v, marked) by {
          assert Plus(v.start, b - v.start) == b;
        }
      }
    }
    assert upTo == below + own;
    ShiftedSize(FreeBlocks(v, marked), v.start);
  }

  lemma GroupFollows(g: Geo, num: nat)
    ensures g.FirstDataBlock() <= g.GroupStart(num)
    ensures g.GroupStart(num + 1) == g.GroupStart(num) + g.BlocksPerGroup()
  {
    assert g.BlocksPerGroup() * (num + 1) == g.BlocksPerGroup() * num + g.BlocksPerGroup();
  }

  ghost predicate SameMarks(marked: set<nat>, marked2: set<nat>, begin: nat, end: nat) {
    forall b {:trigger b in marked2} :: begin <= b < end ==> (b in marked <==> b in marked2)
  }

  /** Work elsewhere leaves the blocks of a group as they are. */
  lemma OtherGroupKept(g: Geo, before: seq<bv32>, after: seq<bv32>, desc: GroupDesc, desc2: GroupDesc, marked: set<nat>,
                       marked2: set<nat>, other: nat, written: nat)
    requires g.Valid() && other < g.GroupCount() && OnlyBlock(g, before, after, written)
    requires written != g.BlockBitmapBlock(other) && SameBlockPart(desc, desc2)
    requires GroupOk(g, before, desc, marked, other)
    requires SameMarks(marked, marked2, g.GroupStart(other), g.GroupStart(other) + g.BlocksPerGroup())
    ensures GroupOk(g, after, desc2, marked2, other)
  {
    hide SameOutside, BlockBits, Geo.GroupCount, Geo.Overhead, Geo.GroupStart, BitmapOk, Geo.BlockBitmapBlock,
         Geo.BlocksPerGroup, Geo.GroupsHoldMetadata, FromLoHi16, FromLoHi32, FirstBit;
    BlocksApart(g, written, g.BlockBitmapBlock(other));
    var v := ViewOf(g, other);
    forall i: nat ensures ShouldBeSet(v, marked2, i) <==> ShouldBeSet(v, marked, i) {
      assert v.start + i < g.GroupStart(other) + g.BlocksPerGroup() || v.count <= i;
    }
    assert FreeBlocks(v, marked2) == FreeBlocks(v, marked);
    OtherBitmapKept(before, after, FirstBit(g, written), FirstBit(g, written) + BlockBits(g), v, marked, marked2);
  }

  /** Registering blocks of one group. */
  lemma RegisterFacts(g: Geo, memory: seq<bv32>, desc: GroupDesc, marked: set<nat>, num: nat, begin: nat, end: nat)
    requires g.Valid() && InsideGroup(g, num, begin, end) && Span(begin, end - begin) !! marked
    requires HoldsVolume(g, |memory|)
    requires GroupOk(g, memory, desc, marked, num)
    ensures RegisteredInView(memory, ViewOf(g, num), desc.freeBlocks, marked, begin, end)
    ensures FromLoHi32(desc.blockBitmap) == g.BlockBitmapBlock(num)
  {
    hide BlockBits, Geo.GroupCount, Geo.Overhead, Geo.GroupStart, BitmapOk, Geo.BlockBitmapBlock, Geo.GroupBlockCount,
         Geo.BlocksPerGroup, FromLoHi16, FromLoHi32, BitmapBase, FreeBlocks, Span, HoldsVolume,
         Geo.GroupsHoldMetadata, RegisteredInView;
    GroupFits(g, num);
    BitmapBaseFacts(g, num, |memory|);
    FreeCountFits(g, num);
    RegisterInView(memory, ViewOf(g, num), desc.freeBlocks, marked, begin, end);
  }

  lemma RegisteredGroupOk(g: Geo, memory: seq<bv32>, desc: GroupDesc, marked: set<nat>, num: nat, begin: nat, end: nat)
    requires g.Valid() && num < g.GroupCount()
    requires RegisteredInView(memory, ViewOf(g, num), desc.freeBlocks, marked, begin, end)
    requires FromLoHi32(desc.blockBitmap) == g.BlockBitmapBlock(num)
    ensures var base, start := BitmapBase(g, num), g.GroupStart(num);
            && start <= begin < end
            && var lo, hi := base + (begin - start), base + (end - start);
               && lo < hi && hi / 32 < |memory|
               && var after := SetBits(memory, lo, hi);
                  && OnlyBlock(g, memory, after, g.BlockBitmapBlock(num))
                  && GroupOk(g, after, desc.(freeBlocks := DecrLoHi16(desc.freeBlocks, end - begin)),
                             marked + Span(begin, end - begin), num)
  {
    hide BlockBits, Geo.GroupCount, Geo.Overhead, Geo.GroupStart, BitmapOk, Geo.BlockBitmapBlock, Geo.GroupBlockCount,
         SameOutside, Geo.BlocksPerGroup, FromLoHi16, FromLoHi32, FirstBit, FreeBlocks, Span, DecrLoHi16,
         Geo.GroupsHoldMetadata, SetBits, Stores16;
  }

  ghost predicate RegisteredInView(memory: seq<bv32>, v: GroupView, free: Halves, marked: set<nat>, begin: nat,
                                   end: nat) {
    && v.start <= begin < end
    && var lo, hi := v.base + (begin - v.start), v.base + (end - v.start);
       && hi / 32 < |memory|
       && var after, marked2 := SetBits(memory, lo, hi), marked + Span(begin, end - begin);
          && SameOutside(memory, after, v.base, v.base + v.bits) && BitmapOk(after, v, marked2)
          && Stores16(DecrLoHi16(free, end - begin), |FreeBlocks(v, marked2)|)
  }

  lemma RegisterInView(memory: seq<bv32>, v: GroupView, free: Halves, marked: set<nat>, begin: nat, end: nat)
    requires v.start + v.overhead <= begin < end <= v.start + v.count && v.count <= v.bits && v.count < U32
    requires Span(begin, end - begin) !! marked && v.base + v.bits + 32 <= 32 * |memory|
    requires BitmapOk(memory, v, marked) && Stores16(free, |FreeBlocks(v, marked)|)
    ensures RegisteredInView(memory, v, free, marked, begin, end)
  {
    hide SameOutside, BitmapOk, FreeBlocks, FromLoHi16, SetBits, DecrLoHi16;
    MarkedBitmapOk(memory, v, marked, begin - v.start, end - v.start);
    FreeBlocksBound(v, marked);
    MarkedFreeBlocks(v, marked, begin - v.start, end - v.start);
    Decremented(free, end - begin);
  }

  lemma FreeBlocksBound(v: GroupView, marked: set<nat>)
    ensures |FreeBlocks(v, marked)| <= v.count
  {
    SpanSize(0, v.count);
    assert FreeBlocks(v, marked) <= Span(0, v.count);
    SubsetSize(FreeBlocks(v, marked), Span(0, v.count));
  }

  lemma OtherGroupUnmarked(g: Geo, marked: set<nat>, num: nat, begin: nat, end: nat, other: nat)
    requires g.Valid() && InsideGroup(g, num, begin, end) && other < g.GroupCount() && other != num
    ensures SameMarks(marked, marked + Span(begin, end - begin), g.GroupStart(other),
                      g.GroupStart(other) + g.BlocksPerGroup())
  {
    hide Geo.GroupCount, Geo.Overhead, Geo.GroupStart, Geo.BlocksPerGroup;
    if num < other { GroupsAscend(g, num, other); } else { GroupsAscend(g, other, num); }
  }

  /** memset(block_bitmap, 0, blk_size), as words */
  method ClearWords(memory: array<bv32>, from: nat, count: nat)
    requires from + count <= memory.Length
    modifies memory
    ensures forall w :: 0 <= w < memory.Length ==>
              memory[w] == if from <= w < from + count then 0 else old(memory[w])
  {
    var i := 0;
    while i < count
      invariant 0 <= i <= count
      invariant forall w :: 0 <= w < memory.Length ==>
                  memory[w] == if from <= w < from + i then 0 else old(memory[w])
    {
      memory[from + i] := 0;
      i := i + 1;
    }
  }

  /** The bitmap part of that turn. */
  method InitBitmap(memory: array<bv32>, v: GroupView)
    requires v.base % 32 == 0 && v.bits % 32 == 0 && v.base + v.bits + 32 <= 32 * memory.Length
    requires v.overhead < v.count <= v.bits
    modifies memory
    ensures BitmapOk(memory[..], v, {})
    ensures SameOutside(old(memory[..]), memory[..], v.base, v.base + v.bits)
  {
    hide BitAt, SetBits, BitmapOk, SameOutside;
    ghost var m0 := memory[..];
    ClearWords(memory, v.base / 32, v.bits / 32);
    ClearedBits(m0, memory[..], v.base / 32, v.bits / 32);
    NewBitmapOk(m0, memory[..], v);
    BitmapSetBits(memory, v.base, v.base + v.overhead);
    BitmapSetBits(memory, v.base + v.count, v.base + v.bits);
  }

  lemma NewGroupFacts(g: Geo, num: nat, words: nat)
    requires g.Valid() && num < g.GroupCount() && HoldsVolume(g, words)
    ensures g.GroupStart(num) <= g.blockCount && g.Overhead(num) < g.GroupBlockCount(num)
    ensures var v := ViewOf(g, num);
            && v.base % 32 == 0 && v.bits % 32 == 0 && v.base + v.bits + 32 <= 32 * words
            && 0 < v.overhead < v.count <= v.bits
            && Stores16(SetLoHi16(v.count - v.overhead), |FreeBlocks(v, {})|)
    ensures FromLoHi32(SetLoHi32(g.BlockBitmapBlock(num))) == g.BlockBitmapBlock(num)
  {
    hide Geo.GroupCount, Geo.GroupStart, Geo.GroupBlockCount, Geo.Overhead, Geo.BlockBitmapBlock,
         Geo.BlocksPerGroup, Geo.GroupsHoldMetadata, BlockBits, FreeBlocks;
    GroupFits(g, num);
    BlocksFitBitmap(g);
    BitmapBaseFacts(g, num, words);
    OverheadPositive(g, num);
    FreeCountFits(g, num);
    NewFreeBlocks(ViewOf(g, num));
    LoHi32RoundTrip(g.BlockBitmapBlock(num));
    LoHi16RoundTrip(g.GroupBlockCount(num) - g.Overhead(num));
  }

  lemma OverheadPositive(g: Geo, num: nat)
    requires g.Valid()
    ensures 0 < g.Overhead(num)
  {
  }

  lemma FreeCountFits(g: Geo, num: nat)
    requires g.Valid() && num < g.GroupCount()
    ensures g.GroupBlockCount(num) <= 65528 && g.BlockBitmapBlock(num) < g.blockCount < U32
  {
    hide Geo.BlockBitmapBlock, Geo.GroupStart, Geo.GroupCount;
    BitmapBlockFits(g, num);
  }
}
