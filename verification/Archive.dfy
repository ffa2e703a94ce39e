/** The layout of the stream archive: pages, slots and segments (stream-archiver.cpp). */
module Archive {
  import opened Fat
  import opened Allocator
  import opened Disk

  /** A pointer into the archive: a page's cluster and an offset in it; cluster 0 is NULL. */
  datatype Addr = Addr(page: nat, offset: nat)

  /** What a slot is for: a segment header, whose element count is written when the segment
      is cut, or an element. */
  datatype Content = Head(elementCount: Option<nat>) | Element(item: Item) {
    function Size(): nat {
      if Head? then HEADER_SIZE else SizeOf(item)
    }
  }

  /** A stretch of bytes of one page; pages are counted along the chain. */
  datatype Slot = Slot(page: nat, offset: nat, content: Content) {
    function End(): nat { offset + content.Size() }
  }

  /** What the archive stores: the clusters of its pages, every slot handed out, which slots
      are segment headers, and the segments, the last of which is still open. */
  datatype Log = Log(pages: seq<nat>, slots: seq<Slot>, heads: seq<nat>, segs: seq<seq<Item>>)

  function Last<T>(s: seq<T>): T
    requires |s| > 0
  {
    s[|s| - 1]
  }

  // --- Storage: slots in pages --------------------------------------------------------

  /** Where iterateStreamArchiver puts the next slot. */
  function NextSlot(last: Slot, content: Content, pageSize: nat): Slot {
    if last.End() + content.Size() > pageSize then Slot(last.page + 1, PAGE_LINK_SIZE, content)
    else Slot(last.page, last.End(), content)
  }

  ghost predicate Before(a: Slot, b: Slot) {
    a.page < b.page || (a.page == b.page && a.End() <= b.offset)
  }

  /** Slots follow one another without overlap, each inside its page. */
  ghost predicate LayoutOk(slots: seq<Slot>, pageCount: nat, pageSize: nat) {
    && |slots| > 0
    && slots[0].page == 0 && slots[0].offset == PAGE_LINK_SIZE
    && Last(slots).page + 1 == pageCount
    && (forall i :: 0 <= i < |slots| ==>
          && slots[i].page < pageCount && 0 < slots[i].content.Size() <= DENTRY_SIZE
          && PAGE_LINK_SIZE <= slots[i].offset && slots[i].End() <= pageSize)
    && (forall i :: 0 < i < |slots| ==>
          slots[i] == NextSlot(slots[i - 1], slots[i].content, pageSize))
    && (forall i, j :: 0 <= i < j < |slots| ==> Before(slots[i], slots[j]))
  }

  /** The pages are distinct clusters, linked in order up to a NULL. */
  ghost predicate PagesOk(view: seq<Cluster>, pages: seq<nat>) {
    && (forall i :: 0 <= i < |pages| ==>
          && FAT_START_INDEX <= pages[i] < |view| && view[pages[i]].Page?
          && view[pages[i]].next == (if i + 1 < |pages| then pages[i + 1] else 0))
    && (forall i, j :: 0 <= i < j < |pages| ==> pages[i] != pages[j])
  }

  ghost function CellAt(view: seq<Cluster>, addr: Addr): Option<Cell> {
    if addr.page < |view| && view[addr.page].Page? && addr.offset in view[addr.page].cells
    then Some(view[addr.page].cells[addr.offset])
    else None
  }

  ghost function AddrOf(slot: Slot, pages: seq<nat>): Addr
    requires slot.page < |pages|
  {
    Addr(pages[slot.page], slot.offset)
  }

  /** The pages hold what has been written to a slot. */
  ghost predicate Holds(view: seq<Cluster>, addr: Addr, content: Content) {
    match content
    case Head(None) => true
    case Head(Some(count)) => CellAt(view, addr) == Some(HeaderCell(count))
    case Element(Reserved(_)) => true
    case Element(item) => CellAt(view, addr) == Some(ItemCell(item))
  }

  ghost predicate CellsOk(view: seq<Cluster>, slots: seq<Slot>, pages: seq<nat>) {
    forall i :: 0 <= i < |slots| ==>
      slots[i].page < |pages| && Holds(view, AddrOf(slots[i], pages), slots[i].content)
  }

  ghost predicate Stored(view: seq<Cluster>, slots: seq<Slot>, pages: seq<nat>, pageSize: nat) {
    && LayoutOk(slots, |pages|, pageSize)
    && PagesOk(view, pages)
    && CellsOk(view, slots, pages)
  }

  /** The largest elements that fit in a page: no page is left before it has as many. */
  function SlotsPerPage(pageSize: nat): nat
    requires PAGE_LINK_SIZE <= pageSize
  {
    (pageSize - PAGE_LINK_SIZE) / DENTRY_SIZE
  }

  /** Pages are filled before new ones are begun. */
  ghost predicate Filled(log: Log, pageSize: nat)
    requires PAGE_LINK_SIZE <= pageSize
  {
    |log.pages| > 0 ==> SlotsPerPage(pageSize) * (|log.pages| - 1) <= |log.slots|
  }

  lemma StoredIsFilled(view: seq<Cluster>, log: Log, pageSize: nat)
    requires Stored(view, log.slots, log.pages, pageSize) && PAGE_LINK_SIZE + DENTRY_SIZE <= pageSize
    ensures Filled(log, pageSize)
  {
    hide SlotsPerPage;
    FilledUpTo(log.slots, |log.pages|, pageSize, |log.slots| - 1);
  }

  lemma {:induction false} FilledUpTo(slots: seq<Slot>, pageCount: nat, pageSize: nat, i: nat)
    requires LayoutOk(slots, pageCount, pageSize) && i < |slots| && PAGE_LINK_SIZE + DENTRY_SIZE <= pageSize
    ensures PAGE_LINK_SIZE <= slots[i].End() && slots[i].content.Size() <= DENTRY_SIZE
    ensures DENTRY_SIZE * (SlotsPerPage(pageSize) * slots[i].page) + slots[i].End() - PAGE_LINK_SIZE
            <= DENTRY_SIZE * (i + 1)
  {
    hide SlotsPerPage;
    if i > 0 {
      FilledUpTo(slots, pageCount, pageSize, i - 1);
      assert slots[i] == NextSlot(slots[i - 1], slots[i].content, pageSize);
      hide LayoutOk;
      if slots[i].page > slots[i - 1].page {
        RoomInPage(pageSize);
        NextPage(SlotsPerPage(pageSize), slots[i - 1].page, pageSize, slots[i - 1].End(), slots[i].content.Size(), i);
      }
    }
  }

  lemma NextPage(k: nat, page: nat, pageSize: nat, end: nat, size: nat, i: nat)
    requires DENTRY_SIZE * (k * page) + end - PAGE_LINK_SIZE <= DENTRY_SIZE * i
    requires DENTRY_SIZE * k <= pageSize - PAGE_LINK_SIZE && pageSize < end + size && size <= DENTRY_SIZE
    ensures DENTRY_SIZE * (k * (page + 1)) + size <= DENTRY_SIZE * (i + 1)
  {
    assert k * (page + 1) == k * page + k;
  }

  lemma RoomInPage(pageSize: nat)
    requires PAGE_LINK_SIZE + DENTRY_SIZE <= pageSize
    ensures 0 < SlotsPerPage(pageSize)
    ensures DENTRY_SIZE * SlotsPerPage(pageSize) <= pageSize - PAGE_LINK_SIZE
  {
  }

  /** The archive does not depend on clusters that are not its pages. */
  lemma OtherClustersKeepStored(
    view: seq<Cluster>, view2: seq<Cluster>, slots: seq<Slot>, pages: seq<nat>, pageSize: nat)
    requires Stored(view, slots, pages, pageSize)
    requires |view2| == |view| && forall p :: p in pages && p < |view| ==> view2[p] == view[p]
    ensures Stored(view2, slots, pages, pageSize)
  {
    forall i | 0 <= i < |slots|
      ensures Holds(view2, AddrOf(slots[i], pages), slots[i].content)
    {
      assert AddrOf(slots[i], pages).page in pages;
      assert CellAt(view2, AddrOf(slots[i], pages)) == CellAt(view, AddrOf(slots[i], pages));
    }
  }

  lemma LastPage(view: seq<Cluster>, log: Log, pageSize: nat)
    requires Stored(view, log.slots, log.pages, pageSize)
    ensures |log.pages| > 0 && |log.slots| > 0 && Last(log.slots).page == |log.pages| - 1
    ensures Last(log.pages) in log.pages
    ensures Last(log.pages) < |view| && view[Last(log.pages)].Page?
  {
  }

  lemma PageOfSlot(view: seq<Cluster>, log: Log, pageSize: nat, i: nat)
    requires Stored(view, log.slots, log.pages, pageSize) && i < |log.slots|
    ensures log.slots[i].page < |log.pages| && AddrOf(log.slots[i], log.pages).page in log.pages
    ensures AddrOf(log.slots[i], log.pages).page < |view|
    ensures view[AddrOf(log.slots[i], log.pages).page].Page?
  {
  }

  /** Distinct slots have distinct addresses. */
  lemma AddrInjective(view: seq<Cluster>, log: Log, pageSize: nat, i: nat, j: nat)
    requires Stored(view, log.slots, log.pages, pageSize)
    requires i < |log.slots| && j < |log.slots| && i != j
    ensures AddrOf(log.slots[i], log.pages) != AddrOf(log.slots[j], log.pages)
  {
    assert Before(log.slots[i], log.slots[j]) || Before(log.slots[j], log.slots[i]);
  }

  /** The archive after one more slot; p is the page taken when it does not fit. */
  ghost function WithSlot(log: Log, content: Content, pageSize: nat, p: nat): Log
    requires |log.slots| > 0
  {
    var slot := NextSlot(Last(log.slots), content, pageSize);
    log.(pages := if slot.page == |log.pages| then log.pages + [p] else log.pages,
         slots := log.slots + [slot])
  }

  ghost function WithPage(view: seq<Cluster>, last: nat, p: nat): seq<Cluster>
    requires last < |view| && p < |view| && view[last].Page?
  {
    view[last := view[last].(next := p)][p := Page(0, map[])]
  }

  ghost function WithCell(view: seq<Cluster>, addr: Addr, cell: Cell): seq<Cluster>
    requires addr.page < |view| && view[addr.page].Page?
  {
    var page := view[addr.page];
    view[addr.page := page.(cells := page.cells[addr.offset := cell])]
  }

  lemma WithSlotKeepsLayout(slots: seq<Slot>, pageCount: nat, pageSize: nat, content: Content)
    requires LayoutOk(slots, pageCount, pageSize)
    requires 0 < content.Size() <= DENTRY_SIZE && PAGE_LINK_SIZE + content.Size() <= pageSize
    ensures var slot := NextSlot(Last(slots), content, pageSize);
            LayoutOk(slots + [slot], if slot.page == pageCount then pageCount + 1 else pageCount, pageSize)
  {
    var last := Last(slots);
    var slot := NextSlot(last, content, pageSize);
    forall i | 0 <= i < |slots| ensures Before(slots[i], slot) {
      if i < |slots| - 1 { assert Before(slots[i], last); }
    }
  }

  lemma WithPageKeepsPages(view: seq<Cluster>, pages: seq<nat>, p: nat)
    requires |pages| > 0 && PagesOk(view, pages)
    requires FAT_START_INDEX <= p < |view| && p !in pages
    ensures PagesOk(WithPage(view, Last(pages), p), pages + [p])
  {
    var view', pages' := WithPage(view, Last(pages), p), pages + [p];
    forall i | 0 <= i < |pages'|
      ensures FAT_START_INDEX <= pages'[i] < |view'| && view'[pages'[i]].Page?
      ensures view'[pages'[i]].next == (if i + 1 < |pages'| then pages'[i + 1] else 0)
    {
      if i < |pages| - 1 { assert pages[i] != Last(pages); }
    }
  }

  lemma WithPageKeepsCells(view: seq<Cluster>, slots: seq<Slot>, pages: seq<nat>, p: nat)
    requires |pages| > 0 && PagesOk(view, pages) && CellsOk(view, slots, pages)
    requires FAT_START_INDEX <= p < |view| && p !in pages
    ensures CellsOk(WithPage(view, Last(pages), p), slots, pages + [p])
  {
    var view', pages' := WithPage(view, Last(pages), p), pages + [p];
    forall i | 0 <= i < |slots|
      ensures slots[i].page < |pages'| && Holds(view', AddrOf(slots[i], pages'), slots[i].content)
    {
      var addr := AddrOf(slots[i], pages);
      assert addr == AddrOf(slots[i], pages') && addr.page in pages;
      assert CellAt(view', addr) == CellAt(view, addr);
    }
  }

  /** The storage stays intact when iterateStreamArchiver places a slot. */
  lemma WithSlotKeepsStored(view: seq<Cluster>, log: Log, content: Content, pageSize: nat, p: nat)
    requires Stored(view, log.slots, log.pages, pageSize) && |log.pages| > 0
    requires content == Head(None) || (content.Element? && content.item.Reserved?)
    requires 0 < content.Size() <= DENTRY_SIZE && PAGE_LINK_SIZE + content.Size() <= pageSize
    ensures var log' := WithSlot(log, content, pageSize, p);
            if Last(log.slots).End() + content.Size() <= pageSize
            then Stored(view, log'.slots, log'.pages, pageSize)
            else FAT_START_INDEX <= p < |view| && p !in log.pages ==>
                   Stored(WithPage(view, Last(log.pages), p), log'.slots, log'.pages, pageSize)
  {
    WithSlotKeepsLayout(log.slots, |log.pages|, pageSize, content);
    if Last(log.slots).End() + content.Size() > pageSize && FAT_START_INDEX <= p < |view| && p !in log.pages {
      WithPageKeepsPages(view, log.pages, p);
      WithPageKeepsCells(view, log.slots, log.pages, p);
    }
  }

  ghost function WithContent(slots: seq<Slot>, i: nat, content: Content): seq<Slot>
    requires i < |slots|
  {
    slots[i := slots[i].(content := content)]
  }

  lemma WithContentKeepsLayout(
    slots: seq<Slot>, pageCount: nat, pageSize: nat, i: nat, content: Content)
    requires LayoutOk(slots, pageCount, pageSize)
    requires i < |slots| && content.Size() == slots[i].content.Size()
    ensures LayoutOk(WithContent(slots, i, content), pageCount, pageSize)
  {
    var slots' := WithContent(slots, i, content);
    forall j | 0 < j < |slots'|
      ensures slots'[j] == NextSlot(slots'[j - 1], slots'[j].content, pageSize)
    {
      assert slots[j] == NextSlot(slots[j - 1], slots[j].content, pageSize);
    }
    forall j, k | 0 <= j < k < |slots'| ensures Before(slots'[j], slots'[k]) {
      assert Before(slots[j], slots[k]);
    }
  }

  /** cell is what the slot of content holds once it is written. */
  predicate Writes(content: Content, cell: Cell) {
    match content
    case Head(Some(count)) => cell == HeaderCell(count)
    case Element(item) => cell == ItemCell(item)
    case _ => false
  }

  /** Writing one slot leaves every other slot as it was. */
  lemma WithCellKeepsStored(
    view: seq<Cluster>, log: Log, pageSize: nat, i: nat, content: Content, cell: Cell)
    requires Stored(view, log.slots, log.pages, pageSize)
    requires i < |log.slots| && content.Size() == log.slots[i].content.Size()
    requires Writes(content, cell)
    ensures AddrOf(log.slots[i], log.pages).page in log.pages
    ensures Stored(WithCell(view, AddrOf(log.slots[i], log.pages), cell),
                   WithContent(log.slots, i, content), log.pages, pageSize)
  {
    var addr := AddrOf(log.slots[i], log.pages);
    assert addr.page in log.pages;
    var view' := WithCell(view, addr, cell);
    var slots' := WithContent(log.slots, i, content);
    WithContentKeepsLayout(log.slots, |log.pages|, pageSize, i, content);
    forall j | 0 <= j < |slots'| && j != i
      ensures AddrOf(slots'[j], log.pages) != addr
    {
      AddrInjective(view, log, pageSize, i, j);
    }
    hide LayoutOk;
    forall j | 0 <= j < |slots'|
      ensures Holds(view', AddrOf(slots'[j], log.pages), slots'[j].content)
    {
      if j != i {
        var addr' := AddrOf(slots'[j], log.pages);
        assert CellAt(view', addr') == CellAt(view, addr');
      }
    }
  }

  // --- Segments: headers and their elements -----------------------------------------

  /** A segment starts with the header at slot h; the header of the open segment is unset. */
  ghost predicate SegmentAt(slots: seq<Slot>, h: nat, seg: seq<Item>, closed: bool) {
    && h + |seg| < |slots|
    && slots[h].content == Head(if closed then Some(|seg|) else None)
    && forall k :: 0 <= k < |seg| ==> slots[h + 1 + k].content == Element(seg[k])
  }

  /** The segments follow one another: a header each, then its elements. */
  ghost predicate Ordered(heads: seq<nat>, segs: seq<seq<Item>>) {
    && |segs| == |heads| > 0
    && heads[0] == 0
    && (forall s :: 0 < s < |segs| ==> heads[s] == heads[s - 1] + 1 + |segs[s - 1]|)
    && (forall s, t :: 0 <= s < t < |segs| ==> heads[s] + |segs[s]| < heads[t])
  }

  ghost predicate SegmentsOk(log: Log) {
    && Ordered(log.heads, log.segs)
    && forall s :: 0 <= s < |log.segs| ==>
         SegmentAt(log.slots, log.heads[s], log.segs[s], s < |log.segs| - 1)
  }

  /** Every slot belongs to a segment. */
  ghost predicate Complete(log: Log) {
    SegmentsOk(log) && |log.slots| == Last(log.heads) + 1 + |Last(log.segs)|
  }

  ghost predicate ArchiveOk(view: seq<Cluster>, log: Log, pageSize: nat) {
    Stored(view, log.slots, log.pages, pageSize) && Complete(log)
  }

  ghost function WithElement(log: Log, item: Item): Log
    requires |log.segs| > 0
  {
    log.(segs := log.segs[|log.segs| - 1 := Last(log.segs) + [item]])
  }

  ghost function WithItem(log: Log, s: nat, k: nat, item: Item): Log
    requires s < |log.segs| && k < |log.segs[s]| && s < |log.heads| && log.heads[s] + 1 + k < |log.slots|
  {
    log.(slots := WithContent(log.slots, log.heads[s] + 1 + k, Element(item)),
         segs := log.segs[s := log.segs[s][k := item]])
  }

  /** The archive after cutStreamArchiver: the count is written and the header placed at the
      last slot opens a segment. */
  ghost function WithCut(log: Log): Log
    requires |log.slots| > 0 && |log.heads| > 0 && |log.segs| > 0
  {
    log.(heads := log.heads + [|log.slots| - 1], segs := log.segs + [[]])
  }

  lemma WithElementKeepsSegments(log: Log, slot: Slot)
    requires Complete(log) && slot.content.Element?
    ensures Complete(WithElement(log.(slots := log.slots + [slot]), slot.content.item))
  {
    var log' := WithElement(log.(slots := log.slots + [slot]), slot.content.item);
    forall s | 0 <= s < |log'.segs|
      ensures SegmentAt(log'.slots, log'.heads[s], log'.segs[s], s < |log'.segs| - 1)
    {
      assert SegmentAt(log.slots, log.heads[s], log.segs[s], s < |log.segs| - 1);
    }
  }

  lemma WithCutKeepsSegments(log: Log, slot: Slot)
    requires Complete(log) && slot.content == Head(None)
    ensures var closed := log.(slots := WithContent(log.slots, Last(log.heads), Head(Some(|Last(log.segs)|))));
            Complete(WithCut(closed.(slots := closed.slots + [slot])))
  {
    var closed := log.(slots := WithContent(log.slots, Last(log.heads), Head(Some(|Last(log.segs)|))));
    var log' := WithCut(closed.(slots := closed.slots + [slot]));
    forall s | 0 <= s < |log'.segs|
      ensures SegmentAt(log'.slots, log'.heads[s], log'.segs[s], s < |log'.segs| - 1)
    {
      if s < |log.segs| {
        assert SegmentAt(log.slots, log.heads[s], log.segs[s], s < |log.segs| - 1);
      }
    }
  }

  lemma OtherSegmentKept(slots: seq<Slot>, i: nat, content: Content, h: nat, seg: seq<Item>, closed: bool)
    requires SegmentAt(slots, h, seg, closed) && i < |slots| && (i < h || h + |seg| < i)
    ensures SegmentAt(WithContent(slots, i, content), h, seg, closed)
  {
  }

  lemma SameSegmentUpdated(slots: seq<Slot>, h: nat, seg: seq<Item>, k: nat, item: Item, closed: bool)
    requires SegmentAt(slots, h, seg, closed) && k < |seg|
    ensures slots[h + 1 + k].content == Element(seg[k])
    ensures SegmentAt(WithContent(slots, h + 1 + k, Element(item)), h, seg[k := item], closed)
  {
  }

  lemma OrderedByLength(heads: seq<nat>, segs: seq<seq<Item>>, segs2: seq<seq<Item>>)
    requires Ordered(heads, segs) && |segs2| == |segs|
    requires forall s :: 0 <= s < |segs| ==> |segs2[s]| == |segs[s]|
    ensures Ordered(heads, segs2)
  {
  }

  lemma WithItemKeepsSegments(log: Log, s: nat, k: nat, item: Item)
    requires Complete(log) && s < |log.segs| && k < |log.segs[s]|
    ensures s < |log.heads| && log.heads[s] + 1 + k < |log.slots|
    ensures log.slots[log.heads[s] + 1 + k].content == Element(log.segs[s][k])
    ensures Complete(WithItem(log, s, k, item))
  {
    hide SegmentAt;
    var last := |log.segs| - 1;
    assert SegmentAt(log.slots, log.heads[s], log.segs[s], s < last);
    SameSegmentUpdated(log.slots, log.heads[s], log.segs[s], k, item, s < last);
    var log' := WithItem(log, s, k, item);
    OrderedByLength(log.heads, log.segs, log'.segs);
    forall t | 0 <= t < |log'.segs|
      ensures SegmentAt(log'.slots, log'.heads[t], log'.segs[t], t < |log'.segs| - 1)
    {
      if t != s {
        OtherSegmentKept(log.slots, log.heads[s] + 1 + k, Element(item), log.heads[t], log.segs[t], t < last);
      }
    }
  }

  // --- Cursors ------------------------------------------------------------------------

  /** The four fields of a StreamArchiver. */
  datatype Position = Position(page: nat, offsetInPage: nat, elementIndex: nat, header: Addr)

  /** The cursor has passed the header and k elements of segment s. */
  ghost predicate CursorAt(log: Log, pos: Position, s: nat, k: nat) {
    && s < |log.segs| && s < |log.heads| && k <= |log.segs[s]|
    && log.heads[s] + k < |log.slots|
    && var head, slot := log.slots[log.heads[s]], log.slots[log.heads[s] + k];
       && slot.page < |log.pages| && head.page < |log.pages|
       && pos == Position(log.pages[slot.page], slot.End(), k, AddrOf(head, log.pages))
  }

  /** log2 has everything log has, in the same places; written elements may differ. */
  ghost predicate Grows(log: Log, log2: Log) {
    && log.pages <= log2.pages && log.heads <= log2.heads
    && |log.slots| <= |log2.slots| && |log.segs| <= |log2.segs|
    && (forall i :: 0 <= i < |log.slots| ==>
          && log2.slots[i].page == log.slots[i].page && log2.slots[i].offset == log.slots[i].offset
          && log2.slots[i].content.Size() == log.slots[i].content.Size())
    && (forall s :: 0 <= s < |log.segs| ==> |log.segs[s]| <= |log2.segs[s]|)
  }

  /** A cursor keeps its place while the archive grows. */
  lemma CursorStable(log: Log, log2: Log, pos: Position, s: nat, k: nat)
    requires CursorAt(log, pos, s, k) && Grows(log, log2)
    ensures CursorAt(log2, pos, s, k)
  {
  }

  /** The header a cursor carries tells the length of its segment once that is closed. */
  lemma HeaderOfCursor(view: seq<Cluster>, log: Log, pageSize: nat, pos: Position, s: nat, k: nat)
    requires ArchiveOk(view, log, pageSize) && CursorAt(log, pos, s, k) && s < |log.segs| - 1
    ensures CellAt(view, pos.header) == Some(HeaderCell(|log.segs[s]|))
    ensures pos.elementIndex == k <= |log.segs[s]|
  {
    assert SegmentAt(log.slots, log.heads[s], log.segs[s], true);
    var head := log.slots[log.heads[s]];
    assert Holds(view, AddrOf(head, log.pages), head.content);
  }

  /** The slot after a cursor is where the cursor's own offsets and page link lead. */
  lemma SlotAfterCursor(view: seq<Cluster>, log: Log, pageSize: nat, pos: Position, s: nat, k: nat)
    requires ArchiveOk(view, log, pageSize) && CursorAt(log, pos, s, k)
    requires log.heads[s] + k + 1 < |log.slots|
    ensures var next := log.slots[log.heads[s] + k + 1];
            && next.page < |log.pages|
            && pos.page in log.pages && pos.page < |view| && view[pos.page].Page?
            && AddrOf(next, log.pages) ==
               if pos.offsetInPage + next.content.Size() > pageSize
               then Addr(view[pos.page].next, PAGE_LINK_SIZE)
               else Addr(pos.page, pos.offsetInPage)
  {
    var slot, next := log.slots[log.heads[s] + k], log.slots[log.heads[s] + k + 1];
    assert next == NextSlot(slot, next.content, pageSize);
    assert log.pages[slot.page] in log.pages;
  }

  /** Which slot that is: the next element, or the header of the next segment. */
  lemma ElementAfterCursor(view: seq<Cluster>, log: Log, pageSize: nat, pos: Position, s: nat, k: nat)
    requires ArchiveOk(view, log, pageSize) && CursorAt(log, pos, s, k)
    ensures s < |log.heads|
    ensures var i := log.heads[s] + k + 1;
            && (k < |log.segs[s]| ==>
                  i < |log.slots| && log.slots[i].content == Element(log.segs[s][k]))
            && (k == |log.segs[s]| && s < |log.segs| - 1 ==>
                  i == log.heads[s + 1] && i < |log.slots| && log.slots[i].content.Head?)
            && (k == |log.segs[s]| && s == |log.segs| - 1 ==> i == |log.slots|)
  {
    assert SegmentAt(log.slots, log.heads[s], log.segs[s], s < |log.segs| - 1);
    if s < |log.segs| - 1 {
      assert SegmentAt(log.slots, log.heads[s + 1], log.segs[s + 1], s + 1 < |log.segs| - 1);
    }
  }

  /** A new archive: one page with the header of the first segment. */
  lemma FirstHeader(view: seq<Cluster>, p: nat, pageSize: nat)
    requires FAT_START_INDEX <= p < |view| && view[p] == Page(0, map[])
    requires PAGE_LINK_SIZE + HEADER_SIZE <= pageSize
    ensures var log := Log([p], [Slot(0, PAGE_LINK_SIZE, Head(None))], [0], [[]]);
            && ArchiveOk(view, log, pageSize)
            && AtEndOf(log, Position(p, PAGE_LINK_SIZE + HEADER_SIZE, 0, Addr(p, PAGE_LINK_SIZE)))
  {
  }

  ghost predicate HasItem(log: Log, s: nat, k: nat) {
    s < |log.segs| && s < |log.heads| && k < |log.segs[s]|
  }

  /** addr is the address of element k of segment s. */
  ghost predicate AddressOf(log: Log, s: nat, k: nat, addr: Addr) {
    && HasItem(log, s, k)
    && var i := log.heads[s] + 1 + k;
       i < |log.slots| && log.slots[i].page < |log.pages| && addr == AddrOf(log.slots[i], log.pages)
  }

  lemma AddressStable(log: Log, log2: Log, s: nat, k: nat, addr: Addr)
    requires AddressOf(log, s, k, addr) && Grows(log, log2)
    ensures AddressOf(log2, s, k, addr)
  {
  }

  /** The cursor stands behind the last element of the open segment. */
  ghost predicate AtEndOf(log: Log, pos: Position) {
    |log.segs| > 0 && CursorAt(log, pos, |log.segs| - 1, |Last(log.segs)|)
  }

  lemma WithItemGrows(log: Log, s: nat, k: nat, item: Item)
    requires Complete(log) && s < |log.segs| && k < |log.segs[s]|
    requires SizeOf(item) == SizeOf(log.segs[s][k])
    ensures s < |log.heads| && log.heads[s] + 1 + k < |log.slots|
    ensures Grows(log, WithItem(log, s, k, item))
    ensures forall pos :: AtEndOf(log, pos) ==> AtEndOf(WithItem(log, s, k, item), pos)
  {
    hide Complete;
    WithItemKeepsSegments(log, s, k, item);
  }

  lemma EndIsLastSlot(view: seq<Cluster>, log: Log, pageSize: nat, pos: Position)
    requires ArchiveOk(view, log, pageSize) && AtEndOf(log, pos)
    ensures |log.pages| > 0 && |log.slots| > 0
    ensures pos.page == Last(log.pages) && pos.offsetInPage == Last(log.slots).End()
    ensures pos.elementIndex == |Last(log.segs)|
    ensures |log.heads| == |log.segs| && |log.slots| == Last(log.heads) + 1 + |Last(log.segs)|
    ensures Last(log.slots).page == |log.pages| - 1
  {
  }

  /** log1 is log with one more slot, in its last page. */
  ghost predicate OneMoreSlot(log: Log, log1: Log, content: Content) {
    && log.pages <= log1.pages && |log1.pages| > 0 && |log1.slots| > 0
    && log1.slots == log.slots + [Last(log1.slots)]
    && Last(log1.slots).content == content && Last(log1.slots).page == |log1.pages| - 1
    && log1.heads == log.heads && log1.segs == log.segs
  }

  /** The archive and its end after room was made for one more element. */
  lemma WithElementGrows(view: seq<Cluster>, log: Log, log1: Log, item: Item, pageSize: nat, pos: Position)
    requires ArchiveOk(view, log, pageSize) && AtEndOf(log, pos)
    requires OneMoreSlot(log, log1, Element(item))
    ensures var log2, slot := WithElement(log1, item), Last(log1.slots);
            && Complete(log2) && Grows(log, log2)
            && AddressOf(log2, |log.segs| - 1, |Last(log.segs)|, AddrOf(slot, log1.pages))
            && AtEndOf(log2, Position(Last(log1.pages), slot.End(), pos.elementIndex + 1, pos.header))
  {
    EndIsLastSlot(view, log, pageSize, pos);
    WithElementKeepsSegments(log, Last(log1.slots));
    assert WithElement(log.(slots := log1.slots), item).segs == WithElement(log1, item).segs;
    CompleteIgnoresPages(WithElement(log.(slots := log1.slots), item), WithElement(log1, item));
    hide Complete, Stored;
  }

  lemma CompleteIgnoresPages(log: Log, log2: Log)
    requires Complete(log)
    requires log2.slots == log.slots && log2.heads == log.heads && log2.segs == log.segs
    ensures Complete(log2)
  {
  }

  /** The archive and its end after a cut: the element count of the open segment is written
      and a new header placed. */
  lemma WithCutGrows(view: seq<Cluster>, log: Log, log1: Log, pageSize: nat, pos: Position)
    requires ArchiveOk(view, log, pageSize) && AtEndOf(log, pos)
    requires |log.heads| > 0 && Last(log.heads) < |log.slots| && |log.segs| > 0
    requires OneMoreSlot(
               log.(slots := WithContent(log.slots, Last(log.heads), Head(Some(|Last(log.segs)|)))),
               log1, Head(None))
    ensures var log2, slot := WithCut(log1), Last(log1.slots);
            && Complete(log2) && Grows(log, log2)
            && AtEndOf(log2, Position(Last(log1.pages), slot.End(), 0, AddrOf(slot, log1.pages)))
  {
    hide ArchiveOk, AtEndOf, Complete, Grows;
    EndIsLastSlot(view, log, pageSize, pos);
    HeadOfEnd(view, log, pageSize, pos);
    OkIsComplete(view, log, pageSize);
    CutIsComplete(log, log1);
    CutGrows(log, log1);
    CutIsEnd(log, log1);
  }

  lemma OkIsComplete(view: seq<Cluster>, log: Log, pageSize: nat)
    requires ArchiveOk(view, log, pageSize)
    ensures Complete(log)
  {
  }

  /** The log with the element count of its open segment in place. */
  ghost function WithCount(log: Log): Log
    requires |log.heads| > 0 && Last(log.heads) < |log.slots| && |log.segs| > 0
  {
    log.(slots := WithContent(log.slots, Last(log.heads), Head(Some(|Last(log.segs)|))))
  }

  lemma CutIsComplete(log: Log, log1: Log)
    requires |log.heads| > 0 && Last(log.heads) < |log.slots| && |log.segs| > 0
    requires Complete(log) && OneMoreSlot(WithCount(log), log1, Head(None))
    ensures Complete(WithCut(log1))
  {
    hide Complete, WithContent;
    WithCutKeepsSegments(log, Last(log1.slots));
    CompleteIgnoresPages(WithCut(WithCount(log).(slots := log1.slots)), WithCut(log1));
  }

  lemma CutGrows(log: Log, log1: Log)
    requires |log.heads| > 0 && Last(log.heads) < |log.slots| && |log.segs| > 0
    requires log.slots[Last(log.heads)].content.Head? && OneMoreSlot(WithCount(log), log1, Head(None))
    ensures Grows(log, WithCut(log1))
  {
  }

  lemma CutIsEnd(log: Log, log1: Log)
    requires |log.heads| > 0 && Last(log.heads) < |log.slots| && |log.segs| > 0
    requires |log.heads| == |log.segs| && OneMoreSlot(WithCount(log), log1, Head(None))
    ensures var slot := Last(log1.slots);
            AtEndOf(WithCut(log1), Position(Last(log1.pages), slot.End(), 0, AddrOf(slot, log1.pages)))
  {
  }

  lemma HeadOfEnd(view: seq<Cluster>, log: Log, pageSize: nat, pos: Position)
    requires ArchiveOk(view, log, pageSize) && AtEndOf(log, pos)
    ensures |log.heads| > 0 && Last(log.heads) < |log.slots| && |log.segs| > 0
    ensures log.slots[Last(log.heads)].content == Head(None)
    ensures log.slots[Last(log.heads)].page < |log.pages|
    ensures AddrOf(log.slots[Last(log.heads)], log.pages) == pos.header
    ensures pos.header.page in log.pages && pos.header.page >= FAT_START_INDEX
    ensures pos.page in log.pages && pos.page >= FAT_START_INDEX
  {
    var last := |log.segs| - 1;
    assert SegmentAt(log.slots, log.heads[last], log.segs[last], false);
  }

  /** A written element can be read back through its address. */
  lemma ItemAt(view: seq<Cluster>, log: Log, pageSize: nat, s: nat, k: nat, addr: Addr)
    requires ArchiveOk(view, log, pageSize) && AddressOf(log, s, k, addr)
    ensures HasItem(log, s, k)
    ensures !log.segs[s][k].Reserved? ==> CellAt(view, addr) == Some(ItemCell(log.segs[s][k]))
  {
    assert SegmentAt(log.slots, log.heads[s], log.segs[s], s < |log.segs| - 1);
    var slot := log.slots[log.heads[s] + 1 + k];
    assert Holds(view, AddrOf(slot, log.pages), slot.content);
  }

  /** Where the cursor is after stepping to the slot behind it. */
  lemma CursorAfterStep(view: seq<Cluster>, log: Log, pageSize: nat, pos: Position, s: nat, k: nat)
    requires ArchiveOk(view, log, pageSize) && CursorAt(log, pos, s, k)
    ensures var i := log.heads[s] + k + 1;
            && (i < |log.slots| && log.slots[i].page < |log.pages| ==>
                  var addr := AddrOf(log.slots[i], log.pages);
                  && (k < |log.segs[s]| ==>
                        && AddressOf(log, s, k, addr)
                        && CursorAt(log, Position(addr.page, log.slots[i].End(), k + 1, pos.header), s, k + 1))
                  && (k == |log.segs[s]| && s < |log.segs| - 1 ==>
                        CursorAt(log, Position(addr.page, log.slots[i].End(), 0, addr), s + 1, 0)))
  {
    ElementAfterCursor(view, log, pageSize, pos, s, k);
  }
}
