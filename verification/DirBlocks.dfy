/** ext4 directory blocks: chains of records (tree_builder.cpp, ext4_dentry.cpp). */
module DirBlocks {
  import opened Allocator
  import opened Disk
  import opened Geometry
  import opened Util

  const DENTRY_HEADER_SIZE: nat := 8
  const EXT4_DOT_DENTRY_SIZE: nat := 12

  /** What a directory lists: an inode number and a name. */
  datatype Listed = Listed(inode: nat, name: seq<Byte>)

  function NextMultipleOfFour(n: nat): nat { CeilDiv(n, 4) * 4 }

  /** The length build_dentry gives a record. */
  function RecLen(name: seq<Byte>): nat { NextMultipleOfFour(|name| + DENTRY_HEADER_SIZE) }

  lemma RecLenBounds(name: seq<Byte>)
    ensures RecLen(name) % 4 == 0
    ensures |name| + DENTRY_HEADER_SIZE <= RecLen(name) <= |name| + DENTRY_HEADER_SIZE + 3
  {
  }

  /** Where the records of these entries end when they are laid side by side. */
  ghost function Offset(items: seq<Listed>): nat {
    if items == [] then 0 else Offset(items[..|items| - 1]) + RecLen(items[|items| - 1].name)
  }

  /** build_dentry */
  function BuildRecord(item: Listed): DirRecord {
    DirRecord(item.inode, RecLen(item.name), item.name)
  }

  /** rec_len is 16 bits wide. */
  function Stretched(rec: DirRecord, extra: nat): DirRecord {
    rec.(recLen := (rec.recLen + extra) % U16)
  }

  /** The block starts with the records of these entries, each as short as it can be. */
  ghost predicate Packed(entries: map<nat, DirRecord>, items: seq<Listed>) {
    forall i :: 0 <= i < |items| ==> HasRecord(entries, items, i)
  }

  ghost predicate HasRecord(entries: map<nat, DirRecord>, items: seq<Listed>, i: nat)
    requires i < |items|
  {
    var at := Offset(items[..i]);
    at in entries && entries[at] == BuildRecord(items[i])
  }

  /** The block holds exactly these entries; the last record takes the rest of the block. */
  ghost predicate Finished(entries: map<nat, DirRecord>, blockSize: nat, items: seq<Listed>) {
    && items != [] && Offset(items) <= blockSize
    && var init, last := items[..|items| - 1], items[|items| - 1];
       && Packed(entries, init)
       && Offset(init) in entries
       && entries[Offset(init)] == DirRecord(last.inode, blockSize - Offset(init), last.name)
  }

  lemma OffsetStep(items: seq<Listed>, i: nat)
    requires i < |items|
    ensures Offset(items[..i + 1]) == Offset(items[..i]) + RecLen(items[i].name)
  {
    assert items[..i + 1][..i] == items[..i];
  }

  lemma {:induction false} OffsetMonotone(items: seq<Listed>, i: nat, j: nat)
    requires i <= j <= |items|
    ensures Offset(items[..i]) + DENTRY_HEADER_SIZE * (j - i) <= Offset(items[..j])
    decreases j
  {
    hide RecLen, Offset;
    if i < j {
      OffsetMonotone(items, i, j - 1);
      OffsetStep(items, j - 1);
      RecLenBounds(items[j - 1].name);
    }
  }

  lemma {:induction false} OffsetAligned(items: seq<Listed>)
    ensures Offset(items) % 4 == 0
  {
    hide RecLen;
    if items != [] {
      OffsetAligned(items[..|items| - 1]);
      RecLenBounds(items[|items| - 1].name);
    }
  }

  lemma OffsetAscends(items: seq<Listed>, i: nat)
    requires i < |items|
    ensures Offset(items[..i]) + RecLen(items[i].name) == Offset(items[..i + 1]) <= Offset(items)
    ensures Offset(items[..i]) < Offset(items) && Offset(items[..i]) % 4 == 0
  {
    hide RecLen, Offset;
    OffsetStep(items, i);
    OffsetMonotone(items, i, |items|);
    OffsetMonotone(items, i + 1, |items|);
    OffsetAligned(items[..i]);
    assert items[..|items|] == items;
  }

  lemma PackedSnoc(entries: map<nat, DirRecord>, items: seq<Listed>, item: Listed)
    requires Packed(entries, items)
    ensures Packed(entries[Offset(items) := BuildRecord(item)], items + [item])
    ensures Offset(items + [item]) == Offset(items) + RecLen(item.name)
  {
    var items', entries' := items + [item], entries[Offset(items) := BuildRecord(item)];
    assert items'[..|items|] == items;
    forall i | 0 <= i < |items'| ensures HasRecord(entries', items', i) {
      assert items'[..i] == items[..i];
      if i < |items| {
        OffsetAscends(items, i);
        assert HasRecord(entries, items, i);
      } else {
        assert items[..i] == items;
      }
    }
  }

  lemma FirstPacked(entries: map<nat, DirRecord>, item: Listed)
    ensures Packed(entries[0 := BuildRecord(item)], [item])
    ensures Offset([item]) == RecLen(item.name) && Offset([item][..0]) == 0
  {
    hide RecLen;
    PackedSnoc(entries, [], item);
    assert [] + [item] == [item];
  }

  /** Stretching the last record finishes the block, exactly when its new length fits in 16
      bits. */
  lemma FinishPacked(entries: map<nat, DirRecord>, blockSize: nat, items: seq<Listed>)
    requires items != [] && Packed(entries, items) && Offset(items) <= blockSize
    ensures var at := Offset(items[..|items| - 1]);
            && at < Offset(items) && at in entries && entries[at] == BuildRecord(items[|items| - 1])
            && var entries' := entries[at := Stretched(entries[at], blockSize - Offset(items))];
               Finished(entries', blockSize, items) <==> blockSize - at < U16
  {
    hide RecLen, Offset, Packed;
    var init, last := items[..|items| - 1], items[|items| - 1];
    var at := Offset(init);
    LastRecord(entries, items);
    var entries' := entries[at := Stretched(entries[at], blockSize - Offset(items))];
    PackedElsewhere(entries, items, Stretched(entries[at], blockSize - Offset(items)));
    RecLenBounds(last.name);
    assert entries'[at].recLen == (blockSize - at) % U16;
  }

  lemma LastRecord(entries: map<nat, DirRecord>, items: seq<Listed>)
    requires items != [] && Packed(entries, items)
    ensures var init, last := items[..|items| - 1], items[|items| - 1];
            && Offset(items) == Offset(init) + RecLen(last.name)
            && Offset(init) in entries && entries[Offset(init)] == BuildRecord(last)
  {
    hide RecLen, BuildRecord;
    assert HasRecord(entries, items, |items| - 1);
  }

  /** The last record can change without harm to the others. */
  lemma PackedElsewhere(entries: map<nat, DirRecord>, items: seq<Listed>, rec: DirRecord)
    requires items != [] && Packed(entries, items)
    ensures Packed(entries[Offset(items[..|items| - 1]) := rec], items[..|items| - 1])
  {
    hide RecLen, Offset, BuildRecord;
    var init := items[..|items| - 1];
    var entries' := entries[Offset(init) := rec];
    forall i | 0 <= i < |init| ensures HasRecord(entries', init, i) {
      assert init[..i] == items[..i];
      OffsetAscends(init, i);
      assert HasRecord(entries, items, i);
    }
  }

  // --- Reading a block back ------------------------------------------------------------

  /** A reader that follows rec_len from record to record, checking what ext4 checks: the
      length is a multiple of 4, covers the name and does not lead out of the block. */
  function Walk(entries: map<nat, DirRecord>, blockSize: nat, pos: nat): Option<seq<Listed>>
    decreases blockSize - pos
  {
    if pos >= blockSize then Some([])
    else if pos !in entries then None
    else
      var rec := entries[pos];
      if rec.recLen % 4 != 0 || rec.recLen < DENTRY_HEADER_SIZE + |rec.name| || pos + rec.recLen > blockSize then None
      else
        match Walk(entries, blockSize, pos + rec.recLen)
        case None => None
        case Some(rest) => Some([Listed(rec.inode, rec.name)] + rest)
  }

  /** It finds exactly the entries of a finished block. */
  lemma WalkReads(entries: map<nat, DirRecord>, blockSize: nat, items: seq<Listed>)
    requires Finished(entries, blockSize, items) && blockSize % 4 == 0
    ensures Walk(entries, blockSize, 0) == Some(items)
  {
    WalkFrom(entries, blockSize, items, 0);
    assert items[..0] == [] && items[0..] == items;
  }

  lemma {:induction false} WalkFrom(entries: map<nat, DirRecord>, blockSize: nat, items: seq<Listed>, i: nat)
    requires Finished(entries, blockSize, items) && blockSize % 4 == 0 && i <= |items|
    ensures Walk(entries, blockSize, if i < |items| then Offset(items[..i]) else blockSize) == Some(items[i..])
    decreases |items| - i
  {
    hide RecLen, Offset;
    var init := items[..|items| - 1];
    if i < |items| {
      WalkFrom(entries, blockSize, items, i + 1);
      OffsetAscends(items, i);
      RecLenBounds(items[i].name);
      assert items[i..] == [items[i]] + items[i + 1..];
      if i < |init| {
        assert HasRecord(entries, init, i);
        assert init[..i] == items[..i];
      }
    }
  }

  // --- How many blocks a directory needs -------------------------------------------------

  /** Blocks in use, and the end of the records in the last one. */
  datatype Fill = Fill(blocks: nat, position: nat)

  /** A record goes behind the last one if it fits, or else into a new block. */
  function WithRecord(blockSize: nat, fill: Fill, name: seq<Byte>): Fill {
    if RecLen(name) > blockSize - fill.position then Fill(fill.blocks + 1, RecLen(name))
    else Fill(fill.blocks, fill.position + RecLen(name))
  }

  ghost function Layout(blockSize: nat, names: seq<seq<Byte>>): (fill: Fill)
    ensures 1 <= fill.blocks
  {
    if names == [] then Fill(1, 0)
    else WithRecord(blockSize, Layout(blockSize, names[..|names| - 1]), names[|names| - 1])
  }

  lemma LayoutSnoc(blockSize: nat, names: seq<seq<Byte>>, name: seq<Byte>)
    ensures Layout(blockSize, names + [name]) == WithRecord(blockSize, Layout(blockSize, names), name)
  {
    assert (names + [name])[..|names|] == names;
  }

  lemma {:induction false} LayoutGrows(blockSize: nat, names: seq<seq<Byte>>, n: nat)
    requires n <= |names|
    ensures Layout(blockSize, names[..n]).blocks <= Layout(blockSize, names).blocks
    decreases |names|
  {
    if n == |names| {
      assert names[..n] == names;
    } else {
      LayoutGrows(blockSize, names[..|names| - 1], n);
      assert names[..|names| - 1][..n] == names[..n];
    }
  }

  /** The bytes that the records of these names take. */
  ghost function Bytes(names: seq<seq<Byte>>): nat {
    if names == [] then 0 else Bytes(names[..|names| - 1]) + RecLen(names[|names| - 1])
  }

  ghost function Joined(parts: seq<seq<seq<Byte>>>): seq<seq<Byte>> {
    if parts == [] then [] else Joined(parts[..|parts| - 1]) + parts[|parts| - 1]
  }

  /** However the records are spread over blocks, in order, it takes no fewer blocks. */
  lemma {:induction false} LayoutIsLeast(blockSize: nat, names: seq<seq<Byte>>, parts: seq<seq<seq<Byte>>>)
    requires parts != [] && Joined(parts) == names && forall i :: 0 <= i < |names| ==> RecLen(names[i]) <= blockSize
    requires forall p :: p in parts ==> Bytes(p) <= blockSize
    ensures var fill := Layout(blockSize, names);
            && fill.position <= blockSize && fill.blocks <= |parts|
            && (fill.blocks == |parts| ==> fill.position <= Bytes(parts[|parts| - 1]))
    decreases |names|, |parts|
  {
    hide RecLen;
    var init, last := parts[..|parts| - 1], parts[|parts| - 1];
    if names == [] {
      assert Layout(blockSize, names) == Fill(1, 0);
    } else if last == [] {
      assert Joined(init) + last == Joined(init);
      LayoutIsLeast(blockSize, names, init);
    } else {
      var shorter, name := init + [last[..|last| - 1]], last[|last| - 1];
      assert last in parts && forall p :: p in init ==> p in parts;
      assert shorter[..|init|] == init && Joined(shorter) + [name] == names;
      assert names[..|names| - 1] == Joined(shorter);
      LayoutIsLeast(blockSize, names[..|names| - 1], shorter);
    }
  }

  /** In a block of 65536 bytes a record that is alone is stretched to length 0, and no reader gets
      past it. */
  lemma HugeBlockUnreadable(item: Listed)
    requires |item.name| <= 255
    ensures var entries := map[0 := BuildRecord(item)];
            var entries' := entries[0 := Stretched(entries[0], 65536 - RecLen(item.name))];
            && Packed(entries, [item]) && Offset([item]) == RecLen(item.name)
            && entries'[0].recLen == 0 && Walk(entries', 65536, 0) == None
  {
    hide RecLen;
    RecLenBounds(item.name);
    FirstPacked(map[], item);
  }
}
