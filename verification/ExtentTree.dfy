/** The tree of extents that starts in an inode (ext4_extent.cpp). */
module ExtentTree {
  import opened Fat
  import opened Allocator
  import opened Archive
  import opened Disk
  import opened Extents
  import opened Geometry
  import opened Util

  const EXTENT_HEADER_SIZE: nat := 12
  const EXTENT_ENTRY_SIZE: nat := 12

  /** The slots behind the header in an inode. */
  const INODE_ENTRIES: nat := 4

  function InitExtentHeader(): Node { Node(0, INODE_ENTRIES, 0, map[]) }

  function ToExt4Extent(g: Geo, e: Extent): Ext4Extent
    requires FAT_START_INDEX <= e.physicalStart
  {
    Ext4Extent(e.logicalStart, e.length, SetLoHi48(g.FatClToE4Blk(e.physicalStart)))
  }

  function MaxEntries(g: Geo): nat
    requires EXTENT_HEADER_SIZE <= g.blockSize
  {
    (g.blockSize - EXTENT_HEADER_SIZE) / EXTENT_ENTRY_SIZE
  }

  /** The block a slot leads to when it is read as an index; an extent's length and start
      then pass for the two halves. */
  function ChildBlock(slot: NodeSlot): nat {
    match slot
    case IndexSlot(_, leaf) => FromLoHi32(leaf)
    case ExtentSlot(e) => FromLoHi32(Halves(e.start.hi * U16 + e.len, e.start.lo % U16))
  }

  /** All 48 bits of a block number are read back. */
  lemma IndexRead(block: nat)
    requires block < U32 * U16
    ensures ChildBlock(IndexSlot(0, SetLoHi48(block))) == block
  {
    LoHi48RoundTrip(block);
  }

  /** The block append_to_extent_tree goes on with: the number is cut to 32 bits. */
  function FollowedBlock(slot: NodeSlot): nat { ChildBlock(slot) % U32 }

  // --- Reading a tree back -------------------------------------------------------------

  /** The extents a reader finds from a node down: each node claims no more entries than it
      has room for, and the leaves are all as deep as the headers say. */
  ghost function Leaves(g: Geo, content: map<nat, Cluster>, node: Node): Option<seq<Ext4Extent>>
    requires EXTENT_HEADER_SIZE <= g.blockSize
    decreases node.depth, 1, 0
  {
    if node.entries > node.max || node.max > MaxEntries(g) then None
    else LeavesUpTo(g, content, node, node.entries)
  }

  ghost function LeavesUpTo(g: Geo, content: map<nat, Cluster>, node: Node, n: nat): Option<seq<Ext4Extent>>
    requires EXTENT_HEADER_SIZE <= g.blockSize
    decreases node.depth, 0, n
  {
    if n == 0 then Some([])
    else
      var first := LeavesUpTo(g, content, node, n - 1);
      var last := LeavesAt(g, content, node, n - 1);
      if first.Some? && last.Some? then Some(first.value + last.value) else None
  }

  /** What slot k leads to. */
  ghost function LeavesAt(g: Geo, content: map<nat, Cluster>, node: Node, k: nat): Option<seq<Ext4Extent>>
    requires EXTENT_HEADER_SIZE <= g.blockSize
    decreases node.depth, 0, k
  {
    if k !in node.slots then None
    else if node.depth == 0 then
      (if node.slots[k].ExtentSlot? then Some([node.slots[k].extent]) else None)
    else
      var c := g.E4BlkToFatCl(ChildBlock(node.slots[k]));
      if c in content && content[c].TreeNode? && content[c].node.depth == node.depth - 1
      then Leaves(g, content, content[c].node)
      else None
  }

  /** A reader finds the same when other clusters change. */
  lemma {:induction false} LeavesStable(g: Geo, content: map<nat, Cluster>, content2: map<nat, Cluster>, node: Node)
    requires EXTENT_HEADER_SIZE <= g.blockSize && Leaves(g, content, node).Some?
    requires forall c :: c in content ==> c in content2 && content2[c] == content[c]
    ensures Leaves(g, content2, node) == Leaves(g, content, node)
    decreases node.depth, 1, 0
  {
    LeavesUpToStable(g, content, content2, node, node.entries);
  }

  lemma {:induction false} LeavesUpToStable(g: Geo, content: map<nat, Cluster>, content2: map<nat, Cluster>,
                                            node: Node, n: nat)
    requires EXTENT_HEADER_SIZE <= g.blockSize && LeavesUpTo(g, content, node, n).Some?
    requires forall c :: c in content ==> c in content2 && content2[c] == content[c]
    ensures LeavesUpTo(g, content2, node, n) == LeavesUpTo(g, content, node, n)
    decreases node.depth, 0, n
  {
    if n > 0 {
      LeavesUpToStable(g, content, content2, node, n - 1);
      if node.depth > 0 {
        LeavesStable(g, content, content2, content[g.E4BlkToFatCl(ChildBlock(node.slots[n - 1]))].node);
      }
    }
  }

  // --- The trees this program builds ---------------------------------------------------

  /** A node at depth 0 that holds exactly these extents. */
  ghost predicate LeafHolds(node: Node, exts: seq<Ext4Extent>) {
    && node.depth == 0 && node.entries == |exts| <= node.max
    && forall i :: 0 <= i < |exts| ==> i in node.slots && node.slots[i] == ExtentSlot(exts[i])
  }

  /** The blocks of a tree outside the inode, as clusters. */
  ghost function NodeClusters(g: Geo, root: Node): set<nat> {
    if root.depth == 0 || 0 !in root.slots then {} else {g.E4BlkToFatCl(ChildBlock(root.slots[0]))}
  }

  /** The tree holds exactly these extents: up to four of them in the inode, more in one
      block. */
  ghost predicate TreeHolds(g: Geo, content: map<nat, Cluster>, root: Node, exts: seq<Ext4Extent>)
    requires EXTENT_HEADER_SIZE <= g.blockSize
  {
    && root.max == INODE_ENTRIES
    && if |exts| <= INODE_ENTRIES then LeafHolds(root, exts)
       else
         && root.depth == 1 && root.entries == 1 && 0 in root.slots && root.slots[0].IndexSlot?
         && root.slots[0].block == 0 && ChildBlock(root.slots[0]) < U32
         && var c := g.E4BlkToFatCl(ChildBlock(root.slots[0]));
            && c in content && content[c].TreeNode?
            && content[c].node.max == MaxEntries(g) && LeafHolds(content[c].node, exts)
  }

  lemma {:induction false} LeafReads(g: Geo, content: map<nat, Cluster>, node: Node, exts: seq<Ext4Extent>, n: nat)
    requires EXTENT_HEADER_SIZE <= g.blockSize && LeafHolds(node, exts) && n <= |exts|
    ensures LeavesUpTo(g, content, node, n) == Some(exts[..n])
    decreases n
  {
    if n > 0 {
      LeafReads(g, content, node, exts, n - 1);
      assert exts[..n] == exts[..n - 1] + [exts[n - 1]];
    }
  }

  /** A reader finds exactly these extents, and the tree is one level deep if and only if
      there are more than four. */
  lemma TreeReads(g: Geo, content: map<nat, Cluster>, root: Node, exts: seq<Ext4Extent>)
    requires g.Valid() && TreeHolds(g, content, root, exts)
    ensures Leaves(g, content, root) == Some(exts)
    ensures root.depth == (if |exts| > INODE_ENTRIES then 1 else 0)
  {
    hide Geo.GroupsHoldMetadata, Geo.E4BlkToFatCl, ChildBlock;
    if |exts| <= INODE_ENTRIES {
      LeafReads(g, content, root, exts, |exts|);
      assert exts[..|exts|] == exts;
    } else {
      OneIndexReads(g, content, root);
      var node := content[g.E4BlkToFatCl(ChildBlock(root.slots[0]))].node;
      LeafReads(g, content, node, exts, |exts|);
      assert exts[..|exts|] == exts;
    }
  }

  lemma OneIndexReads(g: Geo, content: map<nat, Cluster>, root: Node)
    requires g.Valid() && root.depth > 0 && root.entries == 1 <= root.max <= MaxEntries(g)
    ensures Leaves(g, content, root) == LeavesAt(g, content, root, 0)
  {
    hide Geo.GroupsHoldMetadata, Geo.E4BlkToFatCl, ChildBlock, MaxEntries;
    assert LeavesUpTo(g, content, root, 0) == Some([]);
    assert LeavesAt(g, content, root, 0).Some? ==>
      [] + LeavesAt(g, content, root, 0).value == LeavesAt(g, content, root, 0).value;
  }

  /** One index entry in the inode can never lead to more extents than fit in one block. */
  lemma OneIndexIsNotEnough(g: Geo, content: map<nat, Cluster>, root: Node)
    requires g.Valid() && root.depth == 1 && root.entries == 1 && Leaves(g, content, root).Some?
    ensures |Leaves(g, content, root).value| <= MaxEntries(g)
  {
    hide Geo.GroupsHoldMetadata, Geo.E4BlkToFatCl, ChildBlock, MaxEntries;
    OneIndexReads(g, content, root);
    var node := content[g.E4BlkToFatCl(ChildBlock(root.slots[0]))].node;
    LeafCount(g, content, node, node.entries);
  }

  lemma {:induction false} LeafCount(g: Geo, content: map<nat, Cluster>, node: Node, n: nat)
    requires EXTENT_HEADER_SIZE <= g.blockSize && node.depth == 0 && LeavesUpTo(g, content, node, n).Some?
    ensures |LeavesUpTo(g, content, node, n).value| == n
    decreases n
  {
    if n > 0 { LeafCount(g, content, node, n - 1); }
  }

  // --- Adding an extent ----------------------------------------------------------------

  /** append_in_block, when there is room. */
  function WithLeaf(node: Node, e: Ext4Extent): Node {
    node.(entries := node.entries + 1, slots := node.slots[node.entries := ExtentSlot(e)])
  }

  /** append_to_new_idx_path, called by append_to_extent_tree: its loop never runs, and the
      slot it fills is that of the last index, which is lost; no entry is added. */
  function WithNewIdxPath(node: Node, e: Ext4Extent): Node
    requires node.entries > 0
  {
    node.(slots := node.slots[node.entries - 1 := ExtentSlot(e)])
  }

  /** An extent stands where an index should. */
  predicate Overflowed(root: Node) {
    root.depth > 0 && 0 in root.slots && root.slots[0].ExtentSlot?
  }

  /** The root after make_tree_deeper has copied it into a block. */
  function Deepened(root: Node, block: nat): Node {
    root.(depth := root.depth + 1, entries := 1, slots := root.slots[0 := IndexSlot(0, SetLoHi48(block))])
  }

  /** What add_extent makes of the root of a tree; accepted tells whether the block below it
      takes the extent. */
  function RootAfterAdd(root: Node, e: Ext4Extent, accepted: bool, block: nat): Node
    requires root.depth > 0 ==> root.entries > 0
  {
    if root.depth == 0 && root.entries < root.max then WithLeaf(root, e)
    else
      var root' := if root.depth == 0 then Deepened(root, block) else root;
      if accepted then root' else WithNewIdxPath(root', e)
  }

  lemma LeafAppends(node: Node, exts: seq<Ext4Extent>, e: Ext4Extent)
    requires LeafHolds(node, exts) && node.entries < node.max
    ensures LeafHolds(WithLeaf(node, e), exts + [e])
  {
  }

  lemma EmptyTree(g: Geo, content: map<nat, Cluster>)
    requires EXTENT_HEADER_SIZE <= g.blockSize
    ensures TreeHolds(g, content, InitExtentHeader(), [])
  {
  }

  /** An address survives being stored in a node. */
  lemma AddressStored(g: Geo, c: nat)
    requires g.Valid() && FAT_START_INDEX <= c < g.DataClusterCount()
    ensures FromLoHi32(SetLoHi48(g.FatClToE4Blk(c))) == g.FatClToE4Blk(c)
    ensures ChildBlock(IndexSlot(0, SetLoHi48(g.FatClToE4Blk(c)))) < U32
    ensures g.E4BlkToFatCl(ChildBlock(IndexSlot(0, SetLoHi48(g.FatClToE4Blk(c))))) == c
  {
    hide Geo.GroupsHoldMetadata;
    LoHi48RoundTrip(g.FatClToE4Blk(c));
  }

  /** The fifth extent: the four in the inode move to a block. */
  lemma DeepenedTree(g: Geo, content: map<nat, Cluster>, root: Node, exts: seq<Ext4Extent>, e: Ext4Extent, c: nat)
    requires g.Valid() && TreeHolds(g, content, root, exts) && |exts| == INODE_ENTRIES
    requires FAT_START_INDEX <= c < g.DataClusterCount()
    requires c in content && content[c] == TreeNode(WithLeaf(root.(max := MaxEntries(g)), e))
    ensures var root' := RootAfterAdd(root, e, true, g.FatClToE4Blk(c));
            TreeHolds(g, content, root', exts + [e]) && NodeClusters(g, root') == {c}
  {
    hide Geo.GroupsHoldMetadata;
    AddressStored(g, c);
    hide Geo.E4BlkToFatCl, ChildBlock, SetLoHi48;
    LeafAppends(root.(max := MaxEntries(g)), exts, e);
  }

  /** Up to four extents, and every extent after the fifth while the block has room. */
  lemma GrownTree(g: Geo, content: map<nat, Cluster>, root: Node, exts: seq<Ext4Extent>, e: Ext4Extent)
    requires g.Valid() && TreeHolds(g, content, root, exts) && |exts| != INODE_ENTRIES && |exts| < MaxEntries(g)
    ensures |exts| < INODE_ENTRIES ==>
              root.entries < root.max && root.depth == 0 && TreeHolds(g, content, WithLeaf(root, e), exts + [e])
    ensures |exts| > INODE_ENTRIES ==>
              var c := g.E4BlkToFatCl(ChildBlock(root.slots[0]));
              && content[c].node.entries < content[c].node.max
              && TreeHolds(g, content[c := TreeNode(WithLeaf(content[c].node, e))], root, exts + [e])
  {
    hide Geo.GroupsHoldMetadata, Geo.E4BlkToFatCl, ChildBlock;
    if |exts| < INODE_ENTRIES {
      LeafAppends(root, exts, e);
    } else {
      LeafAppends(content[g.E4BlkToFatCl(ChildBlock(root.slots[0]))].node, exts, e);
    }
  }

  /** The roots of one inode's tree over a run of add_extent, when the blocks it is led to take the
      extents or do not, but none of them is the block that holds the root. */
  ghost predicate RootRun(roots: seq<Node>, exts: seq<Ext4Extent>) {
    && |roots| == |exts| + 1 && roots[0] == InitExtentHeader()
    && forall n :: 0 <= n < |exts| ==> RootStep(roots[n], roots[n + 1], exts[n])
  }

  ghost predicate RootStep(root: Node, root': Node, e: Ext4Extent) {
    && (root.depth > 0 ==> root.entries > 0)
    && exists accepted: bool, block: nat :: root' == RootAfterAdd(root, e, accepted, block)
  }

  /** From the fifth extent on, the root keeps its one index entry for good, unless a stray append
      (Overflow) writes into the inode itself. */
  lemma {:induction false} RootKeepsOneEntry(roots: seq<Node>, exts: seq<Ext4Extent>, n: nat)
    requires RootRun(roots, exts) && n <= |exts|
    ensures roots[n].max == INODE_ENTRIES
    ensures if n <= INODE_ENTRIES then roots[n].depth == 0 && roots[n].entries == n
            else roots[n].depth == 1 && roots[n].entries == 1
  {
    if n > 0 {
      RootKeepsOneEntry(roots, exts, n - 1);
      assert RootStep(roots[n - 1], roots[n], exts[n - 1]);
    }
  }

  /** So after too many extents no reader finds them, whatever is left in the blocks. */
  lemma TooManyExtents(g: Geo, content: map<nat, Cluster>, roots: seq<Node>, exts: seq<Ext4Extent>)
    requires g.Valid() && RootRun(roots, exts) && |exts| > MaxEntries(g)
    ensures Leaves(g, content, Last(roots)) != Some(exts)
  {
    hide Geo.GroupsHoldMetadata;
    RootKeepsOneEntry(roots, exts, |exts|);
    assert MaxEntries(g) >= INODE_ENTRIES;
    hide RootRun, Leaves, MaxEntries;
    if Leaves(g, content, Last(roots)) == Some(exts) {
      OneIndexIsNotEnough(g, content, Last(roots));
    }
  }

  // --- Runs of add_extent on one inode -------------------------------------------------

  /** A tree: its root in the inode, and the blocks of the volume. */
  datatype TreeState = TreeState(root: Node, content: map<nat, Cluster>)

  /** One call of add_extent. Where the last index of the root does not lead to a node, what
      happens below it is beyond this model, as long as the root itself stays out of it. */
  ghost predicate AddStep(g: Geo, s: TreeState, t: TreeState, e: Ext4Extent)
    requires g.Valid()
  {
    var root := s.root;
    if root.depth == 0 && root.entries < root.max then t == TreeState(WithLeaf(root, e), s.content)
    else if root.depth == 0 then
      exists c {:trigger g.FatClToE4Blk(c)} :: c !in s.content && FAT_START_INDEX <= c < g.DataClusterCount()
        && t == TreeState(Deepened(root, g.FatClToE4Blk(c)),
                          s.content[c := TreeNode(WithLeaf(root.(max := MaxEntries(g)), e))])
    else
      && 0 < root.entries && root.entries - 1 in root.slots
      && var c := g.E4BlkToFatCl(FollowedBlock(root.slots[root.entries - 1]));
         if c in s.content && s.content[c].TreeNode? && s.content[c].node.depth == 0 then
           if s.content[c].node.entries < s.content[c].node.max
           then t == TreeState(root, s.content[c := TreeNode(WithLeaf(s.content[c].node, e))])
           else t == TreeState(WithNewIdxPath(root, e), s.content)
         else t.root == root || t.root == WithNewIdxPath(root, e)
  }

  ghost predicate AddRun(g: Geo, states: seq<TreeState>, exts: seq<Ext4Extent>)
    requires g.Valid()
  {
    && |states| == |exts| + 1 && states[0].root == InitExtentHeader()
    && forall n :: 0 <= n < |exts| ==> AddStep(g, states[n], states[n + 1], exts[n])
  }

  lemma AddStepHolds(g: Geo, s: TreeState, t: TreeState, exts: seq<Ext4Extent>, e: Ext4Extent)
    requires g.Valid() && TreeHolds(g, s.content, s.root, exts) && AddStep(g, s, t, e) && |exts| < MaxEntries(g)
    ensures TreeHolds(g, t.content, t.root, exts + [e])
  {
    hide Geo.GroupsHoldMetadata, ChildBlock, Geo.E4BlkToFatCl, Geo.FatClToE4Blk, MaxEntries;
    if |exts| != INODE_ENTRIES {
      GrownTree(g, s.content, s.root, exts, e);
    } else {
      var c :| c !in s.content && FAT_START_INDEX <= c < g.DataClusterCount()
        && t == TreeState(Deepened(s.root, g.FatClToE4Blk(c)),
                          s.content[c := TreeNode(WithLeaf(s.root.(max := MaxEntries(g)), e))]);
      RootStays(g, s.content, t.content, s.root, exts);
      DeepenedTree(g, t.content, s.root, exts, e, c);
    }
  }

  lemma RootStays(g: Geo, content: map<nat, Cluster>, content2: map<nat, Cluster>, root: Node, exts: seq<Ext4Extent>)
    requires g.Valid() && TreeHolds(g, content, root, exts) && |exts| <= INODE_ENTRIES
    ensures TreeHolds(g, content2, root, exts)
  {
  }

  lemma {:induction false} AddRunHolds(g: Geo, states: seq<TreeState>, exts: seq<Ext4Extent>, n: nat)
    requires g.Valid() && AddRun(g, states, exts) && n <= |exts| && n <= MaxEntries(g)
    ensures TreeHolds(g, states[n].content, states[n].root, exts[..n])
  {
    hide Geo.GroupsHoldMetadata, AddStep, TreeHolds, MaxEntries;
    if n == 0 {
      EmptyTree(g, states[0].content);
    } else {
      AddRunHolds(g, states, exts, n - 1);
      AddStepHolds(g, states[n - 1], states[n], exts[..n - 1], exts[n - 1]);
      assert exts[..n] == exts[..n - 1] + [exts[n - 1]];
    }
  }

  lemma AddStepRoot(g: Geo, s: TreeState, t: TreeState, e: Ext4Extent)
    requires g.Valid() && AddStep(g, s, t, e)
    ensures RootStep(s.root, t.root, e)
  {
    hide Geo.GroupsHoldMetadata, ChildBlock, Geo.E4BlkToFatCl, Geo.FatClToE4Blk, MaxEntries;
    if s.root.depth == 0 && s.root.entries >= s.root.max {
      var c :| c !in s.content && FAT_START_INDEX <= c < g.DataClusterCount()
        && t == TreeState(Deepened(s.root, g.FatClToE4Blk(c)),
                          s.content[c := TreeNode(WithLeaf(s.root.(max := MaxEntries(g)), e))]);
      assert t.root == RootAfterAdd(s.root, e, true, g.FatClToE4Blk(c));
    } else {
      assert t.root == RootAfterAdd(s.root, e, true, 0) || t.root == RootAfterAdd(s.root, e, false, 0);
    }
  }

  /** From an empty inode, a reader of the tree finds the extents that were added exactly if
      they are no more than fit in one block. */
  lemma TreeRightIffItFits(g: Geo, states: seq<TreeState>, exts: seq<Ext4Extent>)
    requires g.Valid() && AddRun(g, states, exts)
    ensures Leaves(g, Last(states).content, Last(states).root) == Some(exts) <==> |exts| <= MaxEntries(g)
  {
    hide Geo.GroupsHoldMetadata, AddStep, RootStep, Leaves, MaxEntries, TreeHolds;
    if |exts| <= MaxEntries(g) {
      AddRunHolds(g, states, exts, |exts|);
      assert exts[..|exts|] == exts;
      TreeReads(g, Last(states).content, Last(states).root, exts);
    } else {
      var roots := seq(|states|, i requires 0 <= i < |states| => states[i].root);
      forall n | 0 <= n < |exts| ensures RootStep(roots[n], roots[n + 1], exts[n]) {
        AddStepRoot(g, states[n], states[n + 1], exts[n]);
      }
      TooManyExtents(g, Last(states).content, roots, exts);
    }
  }

  // --- An inode with too many extents ----------------------------------------------------

  /** What holds of a run that has started with no block in use. */
  ghost predicate FromNothing(s: TreeState) {
    && (s.root.depth == 0 ==> s.content == map[])
    && (s.root.depth > 0 ==> s.root.entries == 1 && 0 in s.root.slots)
  }

  lemma StepExists(g: Geo, s: TreeState, e: Ext4Extent) returns (t: TreeState)
    requires g.Valid() && FromNothing(s)
    ensures AddStep(g, s, t, e) && FromNothing(t)
  {
    hide Geo.GroupsHoldMetadata, ChildBlock, Geo.E4BlkToFatCl, FollowedBlock, MaxEntries;
    var root := s.root;
    if root.depth == 0 && root.entries < root.max {
      t := TreeState(WithLeaf(root, e), s.content);
    } else if root.depth == 0 {
      var c := FAT_START_INDEX;
      t := TreeState(Deepened(root, g.FatClToE4Blk(c)),
                     s.content[c := TreeNode(WithLeaf(root.(max := MaxEntries(g)), e))]);
    } else {
      var c := g.E4BlkToFatCl(FollowedBlock(root.slots[0]));
      if c !in s.content || !s.content[c].TreeNode? || s.content[c].node.depth > 0 {
        t := s;
      } else if s.content[c].node.entries < s.content[c].node.max {
        t := TreeState(root, s.content[c := TreeNode(WithLeaf(s.content[c].node, e))]);
      } else {
        t := TreeState(WithNewIdxPath(root, e), s.content);
      }
    }
  }

  /** Any number of extents can be added. */
  lemma {:induction false} RunExists(g: Geo, exts: seq<Ext4Extent>) returns (states: seq<TreeState>)
    requires g.Valid()
    ensures AddRun(g, states, exts) && FromNothing(Last(states))
  {
    hide Geo.Valid, AddStep, FromNothing;
    if exts == [] {
      states := [TreeState(InitExtentHeader(), map[])];
      NothingYet();
    } else {
      var init := RunExists(g, exts[..|exts| - 1]);
      var t := StepExists(g, Last(init), Last(exts));
      states := init + [t];
    }
  }

  lemma NothingYet()
    ensures FromNothing(TreeState(InitExtentHeader(), map[]))
  {
  }

  /** The 85th extent on 1024-byte blocks: the tree no longer leads to the extents of the file. */
  lemma EightyFiveExtents(exts: seq<Ext4Extent>) returns (states: seq<TreeState>)
    requires |exts| == 85
    ensures var g := Geo(1024, 9000, 100);
            && g.Valid() && AddRun(g, states, exts)
            && Leaves(g, Last(states).content, Last(states).root) != Some(exts)
  {
    hide AddRun, Leaves;
    var g := Geo(1024, 9000, 100);
    states := RunExists(g, exts);
    assert MaxEntries(g) == 84;
    TreeRightIffItFits(g, states, exts);
  }
}
