/** Whole segments written through the write stream (metadata_reader.cpp, reserve_*). */
module StreamWriter {
  import opened Fat
  import opened Allocator
  import opened Disk
  import opened Archive
  import opened Archiver
  import opened Dentry

  /** Since the given moment the stream has reached base and then written the segments more;
      nothing is in the open segment. */
  ghost predicate Written(w: StreamArchiver, since: Moment, base: seq<seq<Item>>, more: seq<seq<Item>>)
    reads w, w.vol, w.vol.disk, w.vol.allocator, w.vol.allocator.bitmap
  {
    w.Ready(since) && w.vol.log.segs == base + more + [[]]
  }

  lemma WrittenRebase(w: StreamArchiver, since: Moment, base: seq<seq<Item>>, more: seq<seq<Item>>,
                      rest: seq<seq<Item>>)
    ensures Written(w, since, base, more + rest) <==> Written(w, since, base + more, rest)
  {
    assert base + (more + rest) + [[]] == (base + more) + rest + [[]];
  }

  lemma WrittenIsValid(w: StreamArchiver, since: Moment, base: seq<seq<Item>>, more: seq<seq<Item>>)
    requires Written(w, since, base, more)
    ensures w.vol.Valid() && w.AtEnd() && Later(since, w.vol.Now())
    ensures |w.vol.log.segs| == |base| + |more| + 1 && Last(w.vol.log.segs) == []
  {
  }

  function ReservedItems(count: nat, size: nat): (items: seq<Item>)
    ensures |items| == count && forall i :: 0 <= i < count ==> items[i] == Reserved(size)
  {
    seq(count, i requires 0 <= i => Reserved(size))
  }

  /** reserve_name, reserve_dentry and reserve_children_count: count elements of one size, and
      the cut. The elements are filled in later. */
  method ReserveSegment(w: StreamArchiver, count: nat, size: nat, ghost since: Moment, ghost base: seq<seq<Item>>)
    returns (ok: bool, addrs: seq<Addr>)
    requires Written(w, since, base, []) && 0 < size <= DENTRY_SIZE
    modifies w, w.vol, w.vol.disk, w.vol.allocator, w.vol.allocator.bitmap
    ensures !ok ==> w.vol.GaveUp(since)
    ensures Uses(old(w.vol.Now()), w.vol.Now(), count + 1, 0)
    ensures ok ==>
              && Written(w, since, base, [ReservedItems(count, size)])
              && Later(old(w.vol.Now()), w.vol.Now())
              && |addrs| == count
              && forall i :: 0 <= i < count ==> AddressOf(w.vol.log, |base|, i, addrs[i])
  {
    hide Volume.Valid, Volume.Intact, Spent, Grows, AtEndOf, AddressOf;
    ghost var m0 := w.vol.Now();
    LaterReflexive(m0);
    addrs := [];
    assert base + [] + [[]] == base + [ReservedItems(0, size)];
    var i := 0;
    while i < count
      invariant 0 <= i <= count && |addrs| == i
      invariant w.Ready(since) && Later(m0, w.vol.Now()) && Uses(m0, w.vol.Now(), i, 0)
      invariant w.vol.log.segs == base + [ReservedItems(i, size)]
      invariant forall j :: 0 <= j < i ==> AddressOf(w.vol.log, |base|, j, addrs[j])
    {
      ghost var m1 := w.vol.Now();
      var r := w.Reserve(size);
      LaterTransitive(since, m1, w.vol.Now());
      LaterTransitive(m0, m1, w.vol.Now());
      if r.None? { return false, []; }
      forall j | 0 <= j < i ensures AddressOf(w.vol.log, |base|, j, addrs[j]) {
        AddressStable(m1.log, w.vol.log, |base|, j, addrs[j]);
      }
      assert ReservedItems(i, size) + [Reserved(size)] == ReservedItems(i + 1, size);
      addrs := addrs + [r.value];
      i := i + 1;
    }
    ghost var m1 := w.vol.Now();
    ok := w.Cut();
    LaterTransitive(since, m1, w.vol.Now());
    LaterTransitive(m0, m1, w.vol.Now());
    if !ok { return; }
    forall j | 0 <= j < count ensures AddressOf(w.vol.log, |base|, j, addrs[j]) {
      AddressStable(m1.log, w.vol.log, |base|, j, addrs[j]);
    }
  }

  /** Fill in element k of the segment that more has at index j. */
  method Fill(w: StreamArchiver, addr: Addr, item: Item, ghost since: Moment, ghost base: seq<seq<Item>>,
              ghost more: seq<seq<Item>>, ghost j: nat, ghost k: nat)
    requires Written(w, since, base, more) && j < |more| && k < |more[j]|
    requires AddressOf(w.vol.log, |base| + j, k, addr) && SizeOf(item) == SizeOf(more[j][k])
    modifies w.vol, w.vol.disk
    ensures w.vol.payload == old(w.vol.payload)
    ensures Uses(old(w.vol.Now()), w.vol.Now(), 0, 0)
    ensures Written(w, since, base, more[j := more[j][k := item]])
    ensures Later(old(w.vol.Now()), w.vol.Now())
  {
    hide Volume.Valid, Spent, Grows, AtEndOf, AddressOf;
    ghost var m0 := w.vol.Now();
    w.vol.WriteItem(addr, item, |base| + j, k);
    LaterTransitive(since, m0, w.vol.Now());
  }
}
