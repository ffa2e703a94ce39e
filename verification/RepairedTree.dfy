/** The extent tree as it is meant to be: append_to_new_idx_path allocates a block on every level
    below the new index, and the index is counted (ext4_extent.cpp, repaired). */
module RepairedTree {
  import opened Allocator
  import opened Archive
  import opened Disk
  import opened ExtentTree

  /** A node with the nodes below it; an index carries the first logical block it leads to. */
  datatype Tree = Leaf(extents: seq<Ext4Extent>) | Branch(indices: seq<TreeIndex>)

  datatype TreeIndex = TreeIndex(key: nat, child: Tree)

  function Extents(t: Tree): seq<Ext4Extent>
    decreases t, 1
  {
    match t
    case Leaf(extents) => extents
    case Branch(indices) => ExtentsBelow(indices)
  }

  function ExtentsBelow(indices: seq<TreeIndex>): seq<Ext4Extent>
    decreases indices, 0
  {
    if indices == [] then []
    else
      var last := Last(indices);
      assert last in indices && last.child < last;
      ExtentsBelow(indices[..|indices| - 1]) + Extents(last.child)
  }

  /** All leaves lie depth levels down, and no node has more entries than it has room for. */
  ghost predicate Uniform(t: Tree, depth: nat, max: nat, inner: nat)
    decreases t
  {
    match t
    case Leaf(extents) => depth == 0 && |extents| <= max
    case Branch(indices) =>
      && 0 < depth && 0 < |indices| <= max
      && forall i :: 0 <= i < |indices| ==>
           Uniform(indices[i].child, depth - 1, inner, inner) && Extents(indices[i].child) != []
  }

  ghost predicate From(key: nat, extents: seq<Ext4Extent>) {
    forall i :: 0 <= i < |extents| ==> key <= extents[i].block
  }

  ghost predicate Below(extents: seq<Ext4Extent>, key: nat) {
    forall i :: 0 <= i < |extents| ==> extents[i].block < key
  }

  /** Each index leads to the extents from its key up to the next one. */
  ghost predicate Sorted(t: Tree)
    decreases t
  {
    t.Branch? ==>
      && (forall i :: 0 <= i < |t.indices| ==>
            Sorted(t.indices[i].child) && From(t.indices[i].key, Extents(t.indices[i].child)))
      && (forall i, j :: 0 <= i < j < |t.indices| ==> Below(Extents(t.indices[i].child), t.indices[j].key))
  }

  /** The repaired append_to_new_idx_path: a block for each level, the extent in the last. */
  function NewPath(depth: nat, e: Ext4Extent): Tree {
    if depth == 0 then Leaf([e]) else Branch([TreeIndex(e.block, NewPath(depth - 1, e))])
  }

  /** append_to_extent_tree with that step; max is the room in this node, inner that in blocks. */
  function Append(t: Tree, depth: nat, e: Ext4Extent, max: nat, inner: nat): Option<Tree>
    decreases t
  {
    match t
    case Leaf(extents) => if |extents| < max then Some(Leaf(extents + [e])) else None
    case Branch(indices) =>
      if indices == [] || depth == 0 then None
      else
        var init, last := indices[..|indices| - 1], Last(indices);
        match Append(last.child, depth - 1, e, inner, inner)
        case Some(child) => Some(Branch(init + [last.(child := child)]))
        case None =>
          if |indices| < max then Some(Branch(indices + [TreeIndex(e.block, NewPath(depth - 1, e))])) else None
  }

  /** add_extent: when the tree is full, make_tree_deeper comes first. */
  function Add(t: Tree, depth: nat, e: Ext4Extent, inner: nat): (Option<Tree>, nat) {
    match Append(t, depth, e, INODE_ENTRIES, inner)
    case Some(t') => (Some(t'), depth)
    case None => (Append(Branch([TreeIndex(0, t)]), depth + 1, e, INODE_ENTRIES, inner), depth + 1)
  }

  lemma ExtentsSnoc(indices: seq<TreeIndex>, index: TreeIndex)
    ensures ExtentsBelow(indices + [index]) == ExtentsBelow(indices) + Extents(index.child)
  {
    assert (indices + [index])[..|indices|] == indices;
  }

  lemma {:induction false} NewPathOk(depth: nat, e: Ext4Extent, inner: nat)
    requires 0 < inner
    ensures Uniform(NewPath(depth, e), depth, inner, inner) && Sorted(NewPath(depth, e))
    ensures Extents(NewPath(depth, e)) == [e] && From(e.block, Extents(NewPath(depth, e)))
  {
    if depth > 0 {
      NewPathOk(depth - 1, e, inner);
      ExtentsSnoc([], TreeIndex(e.block, NewPath(depth - 1, e)));
      assert [] + [TreeIndex(e.block, NewPath(depth - 1, e))] == [TreeIndex(e.block, NewPath(depth - 1, e))];
    }
  }

  /** Appending, at any depth: one more extent at the end, and the tree stays uniform and sorted. */
  lemma {:induction false} AppendOk(t: Tree, depth: nat, e: Ext4Extent, max: nat, inner: nat)
    requires Uniform(t, depth, max, inner) && 0 < inner
    ensures var r := Append(t, depth, e, max, inner);
            r.Some? ==>
              && Uniform(r.value, depth, max, inner) && Extents(r.value) == Extents(t) + [e]
              && (Sorted(t) && Below(Extents(t), e.block) ==> Sorted(r.value))
    decreases t
  {
    hide Sorted, Below, From, Uniform;
    if t.Leaf? {
      LeavesOk(t, depth, e, max, inner);
    } else {
      UniformLast(t, depth, max, inner);
      var init, last := t.indices[..|t.indices| - 1], Last(t.indices);
      assert t.indices == init + [last];
      AppendOk(last.child, depth - 1, e, inner, inner);
      ExtentsSnoc(init, last);
      match Append(last.child, depth - 1, e, inner, inner)
      case Some(child) =>
        ExtentsSnoc(init, last.(child := child));
        UniformReplaced(t, depth, max, inner, child);
        if Sorted(t) && Below(Extents(t), e.block) { SortedReplaced(t, init, last, child, e); }
      case None =>
        NewPathOk(depth - 1, e, inner);
        var added := TreeIndex(e.block, NewPath(depth - 1, e));
        ExtentsSnoc(t.indices, added);
        if |t.indices| < max { UniformGrown(t, depth, max, inner, added); }
        if Sorted(t) && Below(Extents(t), e.block) { SortedGrown(t, added); }
    }
  }

  lemma UniformLast(t: Tree, depth: nat, max: nat, inner: nat)
    requires Uniform(t, depth, max, inner) && t.Branch?
    ensures 0 < depth && t.indices != []
    ensures Uniform(Last(t.indices).child, depth - 1, inner, inner) && Extents(Last(t.indices).child) != []
  {
  }

  lemma UniformReplaced(t: Tree, depth: nat, max: nat, inner: nat, child: Tree)
    requires Uniform(t, depth, max, inner) && t.Branch? && t.indices != [] && 0 < depth
    requires Uniform(child, depth - 1, inner, inner) && Extents(child) != []
    ensures Uniform(Branch(t.indices[..|t.indices| - 1] + [Last(t.indices).(child := child)]), depth, max, inner)
  {
  }

  lemma UniformGrown(t: Tree, depth: nat, max: nat, inner: nat, added: TreeIndex)
    requires Uniform(t, depth, max, inner) && t.Branch? && 0 < depth && |t.indices| < max
    requires Uniform(added.child, depth - 1, inner, inner) && Extents(added.child) != []
    ensures Uniform(Branch(t.indices + [added]), depth, max, inner)
  {
  }

  lemma LeavesOk(t: Tree, depth: nat, e: Ext4Extent, max: nat, inner: nat)
    requires t.Leaf? && Uniform(t, depth, max, inner)
    ensures Sorted(Leaf(t.extents + [e])) && (|t.extents| < max ==> Uniform(Leaf(t.extents + [e]), depth, max, inner))
  {
  }

  lemma BelowSplit(a: seq<Ext4Extent>, b: seq<Ext4Extent>, key: nat)
    requires Below(a + b, key)
    ensures Below(a, key) && Below(b, key)
  {
    forall i | 0 <= i < |a| ensures a[i].block < key {
      assert (a + b)[i] == a[i];
    }
    forall i | 0 <= i < |b| ensures b[i].block < key {
      assert (a + b)[|a| + i] == b[i];
    }
  }

  lemma SortedReplaced(t: Tree, init: seq<TreeIndex>, last: TreeIndex, child: Tree, e: Ext4Extent)
    requires t.Branch? && t.indices == init + [last] && Sorted(t) && Below(Extents(t), e.block)
    requires Extents(child) == Extents(last.child) + [e]
    requires Sorted(last.child) && Below(Extents(last.child), e.block) ==> Sorted(child)
    requires Extents(last.child) != []
    ensures Sorted(Branch(init + [last.(child := child)]))
  {
    ExtentsSnoc(init, last);
    BelowSplit(ExtentsBelow(init), Extents(last.child), e.block);
    var t' := Branch(init + [last.(child := child)]);
    assert t.indices[|init|] == last;
    assert last.key <= Extents(last.child)[0].block < e.block;
    forall i | 0 <= i < |t'.indices|
      ensures Sorted(t'.indices[i].child) && From(t'.indices[i].key, Extents(t'.indices[i].child))
    {
      if i < |init| { assert t'.indices[i] == t.indices[i]; }
    }
    forall i, j | 0 <= i < j < |t'.indices| ensures Below(Extents(t'.indices[i].child), t'.indices[j].key) {
      assert t'.indices[i] == t.indices[i] && t'.indices[j].key == t.indices[j].key;
    }
  }

  lemma SortedGrown(t: Tree, added: TreeIndex)
    requires t.Branch? && Sorted(t) && Below(Extents(t), added.key) && Sorted(added.child)
    requires From(added.key, Extents(added.child))
    ensures Sorted(Branch(t.indices + [added]))
  {
    var t' := Branch(t.indices + [added]);
    forall i | 0 <= i < |t'.indices|
      ensures Sorted(t'.indices[i].child) && From(t'.indices[i].key, Extents(t'.indices[i].child))
    {
      if i < |t.indices| { assert t'.indices[i] == t.indices[i]; }
    }
    forall i, j | 0 <= i < j < |t'.indices| ensures Below(Extents(t'.indices[i].child), t'.indices[j].key) {
      assert t'.indices[i] == t.indices[i];
      if j == |t.indices| { PartBelow(t.indices, i, added.key); } else { assert t'.indices[j] == t.indices[j]; }
    }
  }

  lemma {:induction false} PartBelow(indices: seq<TreeIndex>, i: nat, key: nat)
    requires i < |indices| && Below(ExtentsBelow(indices), key)
    ensures Below(Extents(indices[i].child), key)
    decreases |indices|
  {
    var init := indices[..|indices| - 1];
    BelowSplit(ExtentsBelow(init), Extents(Last(indices).child), key);
    if i < |init| { PartBelow(init, i, key); }
  }

  /** add_extent always succeeds: a tree that is one level deeper has room. */
  lemma AddOk(t: Tree, depth: nat, e: Ext4Extent, inner: nat)
    requires Uniform(t, depth, INODE_ENTRIES, inner) && INODE_ENTRIES <= inner
    ensures var (r, depth') := Add(t, depth, e, inner);
            && r.Some? && Uniform(r.value, depth', INODE_ENTRIES, inner) && Extents(r.value) == Extents(t) + [e]
            && (Sorted(t) && Below(Extents(t), e.block) ==> Sorted(r.value))
  {
    hide Sorted, Below, Uniform, Extents, Append;
    AppendOk(t, depth, e, INODE_ENTRIES, inner);
    if Append(t, depth, e, INODE_ENTRIES, inner).None? {
      DeeperOk(t, depth, e, inner);
      AppendOk(Branch([TreeIndex(0, t)]), depth + 1, e, INODE_ENTRIES, inner);
    }
  }

  lemma DeeperOk(t: Tree, depth: nat, e: Ext4Extent, inner: nat)
    requires Uniform(t, depth, INODE_ENTRIES, inner) && INODE_ENTRIES <= inner
    requires Append(t, depth, e, INODE_ENTRIES, inner).None?
    ensures var deeper := Branch([TreeIndex(0, t)]);
            && Uniform(deeper, depth + 1, INODE_ENTRIES, inner) && Extents(deeper) == Extents(t)
            && (Sorted(t) ==> Sorted(deeper)) && Append(deeper, depth + 1, e, INODE_ENTRIES, inner).Some?
  {
    var index := TreeIndex(0, t);
    assert [] + [index] == [index];
    ExtentsSnoc([], index);
    FullIsNotEmpty(t, depth, e, INODE_ENTRIES, inner);
    RoomToSpare(t, depth, INODE_ENTRIES, inner);
  }

  /** Inside a block a node may have more entries than in the inode. */
  lemma RoomToSpare(t: Tree, depth: nat, max: nat, inner: nat)
    requires Uniform(t, depth, max, inner) && max <= inner
    ensures Uniform(t, depth, inner, inner)
  {
  }

  lemma FullIsNotEmpty(t: Tree, depth: nat, e: Ext4Extent, max: nat, inner: nat)
    requires Uniform(t, depth, max, inner) && Append(t, depth, e, max, inner).None? && 0 < max
    ensures Extents(t) != []
  {
    if t.Branch? {
      assert t.indices == t.indices[..|t.indices| - 1] + [Last(t.indices)];
      ExtentsSnoc(t.indices[..|t.indices| - 1], Last(t.indices));
    }
  }

  function AddAll(exts: seq<Ext4Extent>, inner: nat): (Option<Tree>, nat) {
    if exts == [] then (Some(Leaf([])), 0)
    else
      var (t, depth) := AddAll(exts[..|exts| - 1], inner);
      if t.None? then (None, depth) else Add(t.value, depth, Last(exts), inner)
  }

  ghost predicate Ascending(exts: seq<Ext4Extent>) {
    forall i, j :: 0 <= i < j < |exts| ==> exts[i].block < exts[j].block
  }

  lemma AscendingInit(exts: seq<Ext4Extent>)
    requires exts != [] && Ascending(exts)
    ensures Ascending(exts[..|exts| - 1]) && Below(exts[..|exts| - 1], Last(exts).block)
  {
  }

  /** From an empty inode, for any number of extents: the tree takes them all, its leaves hold
      them in order and lie equally deep, and ascending extents keep its indices in order. */
  lemma {:induction false} RepairedTreeHoldsAll(exts: seq<Ext4Extent>, inner: nat)
    requires INODE_ENTRIES <= inner
    ensures var (t, depth) := AddAll(exts, inner);
            && t.Some? && Uniform(t.value, depth, INODE_ENTRIES, inner) && Extents(t.value) == exts
            && (Ascending(exts) ==> Sorted(t.value))
    decreases |exts|, 1
  {
    if exts == [] {
    } else {
      RepairedTreeStep(exts, inner);
    }
  }

  lemma {:induction false} RepairedTreeStep(exts: seq<Ext4Extent>, inner: nat)
    requires INODE_ENTRIES <= inner && exts != []
    ensures var (t, depth) := AddAll(exts, inner);
            && t.Some? && Uniform(t.value, depth, INODE_ENTRIES, inner) && Extents(t.value) == exts
            && (Ascending(exts) ==> Sorted(t.value))
    decreases |exts|, 0
  {
    hide Uniform, Sorted, Extents, Add, Ascending, Below;
    var init := exts[..|exts| - 1];
    RepairedTreeHoldsAll(init, inner);
    var (t, depth) := AddAll(init, inner);
    AddOk(t.value, depth, Last(exts), inner);
    assert exts == init + [Last(exts)];
    if Ascending(exts) { AscendingInit(exts); }
  }
}
