/** Directory trees: as the FAT volume holds them, and as the archive stores them. */
module Tree {
  import opened Fat
  import opened Allocator
  import opened Disk
  import opened Archive
  import opened Archiver
  import opened Extents
  import opened Aggregator
  import opened Dentry

  /** A file or directory with the place of its contents: the chain of its clusters on the
      FAT volume, or its extents after the move. A file has no children. */
  datatype Entry<T> = Entry(record: Record, name: seq<seq<Unit>>, place: T, children: seq<Entry<T>>)

  type FatEntry = Entry<seq<nat>>
  type MovedEntry = Entry<seq<Extent>>

  /** The count traverse stores for a file: -1 as a uint32_t. */
  const NO_CHILDREN: nat := 0xFFFF_FFFF

  function NameItems(name: seq<seq<Unit>>): (items: seq<Item>)
    ensures |items| == |name| && forall i :: 0 <= i < |name| ==> items[i] == NameItem(name[i])
  {
    seq(|name|, i requires 0 <= i < |name| => NameItem(name[i]))
  }

  /** The segments of one entry: record, name, extents, and its children or the mark of a file. */
  ghost function EncodeEntry(e: MovedEntry): seq<seq<Item>>
    decreases e, 1
  {
    [[DentryItem(e.record)], NameItems(e.name), ExtentItems(e.place)]
    + if IsDir(e.record) then EncodeDir(e.children) else [[CountItem(NO_CHILDREN)]]
  }

  ghost function EncodeDir(children: seq<MovedEntry>): seq<seq<Item>>
    decreases children, 1
  {
    [[CountItem(|children|)]] + Encode(children)
  }

  ghost function Encode(es: seq<MovedEntry>): seq<seq<Item>>
    decreases es, 0
  {
    if es == [] then [] else Encode(es[..|es| - 1]) + EncodeEntry(Last(es))
  }

  lemma EncodeSnoc(es: seq<MovedEntry>, e: MovedEntry)
    ensures Encode(es + [e]) == Encode(es) + EncodeEntry(e)
  {
    assert (es + [e])[..|es|] == es;
  }

  /** The slots of the archive that a forest takes at most, with a slot for every cut and an extent
      for every cluster. */
  ghost function Slots(es: seq<FatEntry>): nat
    decreases es, 0
  {
    if es == [] then 0 else Slots(es[..|es| - 1]) + EntrySlots(Last(es))
  }

  ghost function EntrySlots(e: FatEntry): nat
    decreases e, 1
  {
    6 + |e.name| + |e.place| + Slots(e.children)
  }

  lemma SlotsPrefix(es: seq<FatEntry>, i: nat)
    requires i < |es|
    ensures Slots(es[..i + 1]) == Slots(es[..i]) + EntrySlots(es[i])
  {
    assert es[..i + 1][..i] == es[..i];
  }

  lemma {:induction false} SlotsGrow(es: seq<FatEntry>, n: nat)
    requires n <= |es|
    ensures Slots(es[..n]) <= Slots(es)
  {
    if n == |es| {
      assert es[..n] == es;
    } else {
      SlotsGrow(es[..|es| - 1], n);
      assert es[..|es| - 1][..n] == es[..n];
    }
  }

  /** All clusters of a forest, in preorder: on the FAT volume ... */
  ghost function Flat(es: seq<FatEntry>): seq<nat>
    decreases es, 0
  {
    if es == [] then [] else Flat(es[..|es| - 1]) + FlatEntry(Last(es))
  }

  ghost function FlatEntry(e: FatEntry): seq<nat>
    decreases e, 1
  {
    e.place + Flat(e.children)
  }

  /** ... and after the move. */
  ghost function Places(es: seq<MovedEntry>): seq<nat>
    decreases es, 0
  {
    if es == [] then [] else Places(es[..|es| - 1]) + PlacesEntry(Last(es))
  }

  ghost function PlacesEntry(e: MovedEntry): seq<nat>
    decreases e, 1
  {
    Clusters(e.place) + Places(e.children)
  }

  lemma PlacesSnoc(es: seq<MovedEntry>, e: MovedEntry)
    ensures Places(es + [e]) == Places(es) + PlacesEntry(e)
  {
    assert (es + [e])[..|es|] == es;
  }

  lemma FlatSnoc(es: seq<FatEntry>, e: FatEntry)
    ensures Flat(es + [e]) == Flat(es) + FlatEntry(e)
  {
    assert (es + [e])[..|es|] == es;
  }

  lemma {:induction false} FlatAppend(a: seq<FatEntry>, b: seq<FatEntry>)
    ensures Flat(a + b) == Flat(a) + Flat(b)
    decreases |b|
  {
    hide Flat, FlatEntry;
    if b == [] {
      assert a + b == a;
      NothingIsFlat();
    } else {
      var init, last := b[..|b| - 1], Last(b);
      FlatAppend(a, init);
      assert b == init + [last] && a + b == (a + init) + [last];
      FlatSnoc(a + init, last);
      FlatSnoc(init, last);
    }
  }

  lemma NothingIsFlat()
    ensures Flat([]) == []
  {
  }

  lemma FlatPrefix(es: seq<FatEntry>, i: nat)
    requires i < |es|
    ensures Flat(es[..i + 1]) == Flat(es[..i]) + FlatEntry(es[i])
  {
    assert es[..i + 1][..i] == es[..i];
  }

  lemma PlacesPrefix(es: seq<MovedEntry>, i: nat)
    requires i < |es|
    ensures Places(es[..i + 1]) == Places(es[..i]) + PlacesEntry(es[i])
  {
    assert es[..i + 1][..i] == es[..i];
  }

  /** out is the forest es with every entry's contents moved to extents that cover it. */
  ghost predicate SameShape(es: seq<FatEntry>, out: seq<MovedEntry>)
    decreases es
  {
    && |es| == |out|
    && forall i :: 0 <= i < |es| ==>
         && out[i].record == es[i].record && out[i].name == es[i].name
         && Tiled(out[i].place, 0) && |Clusters(out[i].place)| == |es[i].place|
         && SameShape(es[i].children, out[i].children)
  }

  lemma SameShapeSnoc(es: seq<FatEntry>, i: nat, out: seq<MovedEntry>, e: MovedEntry)
    requires i < |es| && SameShape(es[..i], out)
    requires e.record == es[i].record && e.name == es[i].name
    requires Tiled(e.place, 0) && |Clusters(e.place)| == |es[i].place| && SameShape(es[i].children, e.children)
    ensures SameShape(es[..i + 1], out + [e])
  {
    forall j | 0 <= j < i + 1
      ensures var m := (out + [e])[j];
              && m.record == es[j].record && m.name == es[j].name
              && Tiled(m.place, 0) && |Clusters(m.place)| == |es[j].place|
              && SameShape(es[j].children, m.children)
    {
      if j < i { assert es[..i][j] == es[j]; }
    }
  }

  // --- The tree on the FAT volume ------------------------------------------------------

  /** The clusters hold directory records only, dpc of them each. */
  ghost predicate DirClusters(content: map<nat, Cluster>, clusters: seq<nat>, dpc: nat) {
    forall c :: c in clusters ==> c in content && content[c].Data? && |content[c].records| == dpc
  }

  ghost function RecordsOf(content: map<nat, Cluster>, clusters: seq<nat>): seq<Record> {
    if clusters == [] then []
    else
      (if clusters[0] in content && content[clusters[0]].Data? then content[clusters[0]].records else [])
      + RecordsOf(content, clusters[1..])
  }

  /** The directory whose contents are the clusters chain has these children, all the way down. */
  ghost predicate Represents(fat: seq<nat>, clusterCount: nat, dpc: nat, content: map<nat, Cluster>,
                             chain: seq<nat>, children: seq<FatEntry>)
    decreases children
  {
    && DirClusters(content, chain, dpc)
    && var parsed := Parse(Live(RecordsOf(content, chain)));
       && parsed.Entries? && |parsed.entries| == |children|
       && forall i :: 0 <= i < |children| ==>
            && children[i].record == parsed.entries[i].record && children[i].name == parsed.entries[i].name
            && RepresentsEntry(fat, clusterCount, dpc, content, children[i])
  }

  ghost predicate RepresentsEntry(fat: seq<nat>, clusterCount: nat, dpc: nat, content: map<nat, Cluster>, e: FatEntry)
    decreases e
  {
    && ClusterNo(e.record) < |fat|
    && IsChain(fat, clusterCount, ClusterNo(e.record), e.place)
    && (forall c :: c in e.place ==> c in content)
    && if IsDir(e.record) then Represents(fat, clusterCount, dpc, content, e.place, e.children) else e.children == []
  }

  /** dst holds in payload what src held in content. */
  ghost predicate Image(content: map<nat, Cluster>, payload: map<nat, Cluster>, src: seq<nat>, dst: seq<nat>) {
    && |src| == |dst|
    && forall i :: 0 <= i < |src| ==>
         src[i] in content && dst[i] in payload && payload[dst[i]] == content[src[i]]
         && FAT_START_INDEX <= dst[i]
  }

  lemma {:induction false} ImageRecords(content: map<nat, Cluster>, payload: map<nat, Cluster>, src: seq<nat>,
                                        dst: seq<nat>, dpc: nat)
    requires Image(content, payload, src, dst) && DirClusters(content, src, dpc)
    ensures DirClusters(payload, dst, dpc)
    ensures RecordsOf(payload, dst) == RecordsOf(content, src)
  {
    if src != [] {
      assert src[0] in src;
      ImageRecords(content, payload, src[1..], dst[1..], dpc);
    }
  }

  lemma ParseStep(live: seq<Record>, entries: seq<RawEntry>)
    requires live != [] && !IsDirTableEnd(live[0]) && Parse(live) == Entries(entries)
    ensures var n := NameRecords(live[0]);
            && n < |live| && entries != []
            && entries[0] == RawEntry(live[n], NameSegments(live))
            && Parse(live[n + 1..]) == Entries(entries[1..])
  {
  }
}
