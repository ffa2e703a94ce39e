/** Data types and constants of the FAT32 volume (fat.h, fat.cpp). */
module Fat {

  const FAT_START_INDEX: nat := 2
  const FAT_END_OF_CHAIN: nat := 0x0FFF_FFF8
  const CLUSTER_ENTRY_LIMIT: nat := 0x1000_0000
  const EXT4_MAX_INIT_EXTENT_LEN: nat := 32768

  /** A run of clusters of one file, in file order and on the volume. */
  datatype Extent = Extent(logicalStart: nat, length: nat, physicalStart: nat) {
    function End(): nat { physicalStart + length }
  }

  /** A file allocation table entry is masked to 28 bits before it is compared with 0. */
  predicate IsFreeCluster(entry: nat) {
    entry % CLUSTER_ENTRY_LIMIT == 0
  }

  /** The clusters start, start + 1, ... of a run. */
  ghost function Span(start: nat, length: nat): set<nat> {
    set c: nat | c < start + length && AtLeast(c, start)
  }

  ghost predicate AtLeast(c: nat, start: nat) {
    start <= c
  }

  lemma SpanGrows(start: nat, length: nat)
    ensures Span(start, length + 1) == Span(start, length) + {start + length}
    ensures Span(start, 1) == {start}
  {
  }

  lemma SpanSize(start: nat, length: nat)
    ensures |Span(start, length)| == length
  {
    if length > 0 {
      SpanSize(start, length - 1);
      assert Span(start, length) == Span(start, length - 1) + {start + length - 1};
    }
  }

  lemma SubsetSize<T>(a: set<T>, b: set<T>)
    requires a <= b
    ensures |a| <= |b|
  {
    assert b == a + (b - a);
  }
}
