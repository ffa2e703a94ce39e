/** Bitmaps in memory, set word by word (util.cpp). Bit i is bit i % 32 of word i / 32, which
    on a little-endian machine is bit i % 8 of byte i / 8. */
module Bitmap {

  const SEGMENT_LENGTH: nat := 32

  /** Bit k of a word, counted from the lowest. */
  predicate WordBit(w: bv32, k: bv5) {
    (w >> k) & 1 == 1
  }

  /** The number of that bit in a bitmap. */
  function BitIndex(w: nat, k: bv5): nat {
    32 * w + (k as int)
  }

  function Or(a: bv32, b: bv32): bv32 { a | b }

  function OneBit(n: nat): bv32
    requires n < 32
  {
    1 << (n as bv5)
  }

  predicate BitAt(memory: seq<bv32>, i: nat)
    requires i / 32 < |memory|
  {
    WordBit(memory[i / 32], (i % 32) as bv5)
  }

  /** bitmap_set_bit */
  function SetBit(memory: seq<bv32>, i: nat): (r: seq<bv32>)
    requires i / 32 < |memory|
    ensures |r| == |memory|
  {
    memory[i / 32 := Or(memory[i / 32], OneBit(i % 32))]
  }

  /** The loop that bitmap_set_bits stands for: set the bits begin, ..., end - 1. */
  function SetBits(memory: seq<bv32>, begin: nat, end: nat): (r: seq<bv32>)
    requires begin < end ==> (end - 1) / 32 < |memory|
    ensures |r| == |memory|
    decreases end - begin
  {
    if begin >= end then memory else SetBit(SetBits(memory, begin, end - 1), end - 1)
  }

  // --- Bits of words -------------------------------------------------------------------

  /** fillLSBs: the lowest len bits. */
  function FillLsbs(len: bv5): bv32 {
    (1 << len) - 1
  }

  lemma BitwiseOps(a: bv32, b: bv32, k: bv5)
    ensures WordBit(a | b, k) <==> WordBit(a, k) || WordBit(b, k)
    ensures WordBit(a & b, k) <==> WordBit(a, k) && WordBit(b, k)
    ensures WordBit(!a, k) <==> !WordBit(a, k)
    ensures WordBit(0xFFFF_FFFF, k)
  {
  }

  lemma MaskBits(len: bv5, k: bv5)
    ensures WordBit(1 << len, k) <==> k == len
    ensures WordBit(FillLsbs(len), k) <==> k < len
  {
  }

  lemma BitIndexBounds(w: nat, k: bv5, n: nat)
    requires n < 32
    ensures 32 * w <= BitIndex(w, k) < 32 * w + 32
    ensures k == (n as bv5) <==> BitIndex(w, k) == 32 * w + n
    ensures k < (n as bv5) <==> BitIndex(w, k) < 32 * w + n
  {
  }

  /** Words with the same bits are the same. */
  lemma SameBits(a: bv32, b: bv32)
    requires WordBit(a, 0) == WordBit(b, 0) && WordBit(a, 1) == WordBit(b, 1) && WordBit(a, 2) == WordBit(b, 2)
    requires WordBit(a, 3) == WordBit(b, 3)
    requires WordBit(a, 4) == WordBit(b, 4) && WordBit(a, 5) == WordBit(b, 5) && WordBit(a, 6) == WordBit(b, 6)
    requires WordBit(a, 7) == WordBit(b, 7)
    requires WordBit(a, 8) == WordBit(b, 8) && WordBit(a, 9) == WordBit(b, 9) && WordBit(a, 10) == WordBit(b, 10)
    requires WordBit(a, 11) == WordBit(b, 11)
    requires WordBit(a, 12) == WordBit(b, 12) && WordBit(a, 13) == WordBit(b, 13) && WordBit(a, 14) == WordBit(b, 14)
    requires WordBit(a, 15) == WordBit(b, 15)
    requires WordBit(a, 16) == WordBit(b, 16) && WordBit(a, 17) == WordBit(b, 17) && WordBit(a, 18) == WordBit(b, 18)
    requires WordBit(a, 19) == WordBit(b, 19)
    requires WordBit(a, 20) == WordBit(b, 20) && WordBit(a, 21) == WordBit(b, 21) && WordBit(a, 22) == WordBit(b, 22)
    requires WordBit(a, 23) == WordBit(b, 23)
    requires WordBit(a, 24) == WordBit(b, 24) && WordBit(a, 25) == WordBit(b, 25) && WordBit(a, 26) == WordBit(b, 26)
    requires WordBit(a, 27) == WordBit(b, 27)
    requires WordBit(a, 28) == WordBit(b, 28) && WordBit(a, 29) == WordBit(b, 29) && WordBit(a, 30) == WordBit(b, 30)
    requires WordBit(a, 31) == WordBit(b, 31)
    ensures a == b
  {
  }

  /** Exactly the bits begin, ..., end - 1 have been set. */
  ghost predicate Filled(before: seq<bv32>, after: seq<bv32>, begin: nat, end: nat) {
    && |after| == |before|
    && forall w: nat, k: bv5 {:trigger WordBit(after[w], k)} :: w < |after| ==>
         (WordBit(after[w], k) <==> WordBit(before[w], k) || begin <= BitIndex(w, k) < end)
  }

  lemma {:induction false} SetBitsFilled(memory: seq<bv32>, begin: nat, end: nat)
    requires begin < end ==> (end - 1) / 32 < |memory|
    ensures Filled(memory, SetBits(memory, begin, end), begin, end)
    decreases end - begin
  {
    hide WordBit, BitIndex, SetBit;
    if begin < end {
      SetBitsFilled(memory, begin, end - 1);
      var before, i := SetBits(memory, begin, end - 1), end - 1;
      forall w: nat, k: bv5 | w < |memory|
        ensures WordBit(SetBit(before, i)[w], k) <==> WordBit(memory[w], k) || begin <= BitIndex(w, k) < end
      {
        SetBitStep(before, i, w, k);
      }
    }
  }

  lemma SetBitStep(memory: seq<bv32>, i: nat, w: nat, k: bv5)
    requires i / 32 < |memory| && w < |memory|
    ensures WordBit(SetBit(memory, i)[w], k) <==> WordBit(memory[w], k) || BitIndex(w, k) == i
  {
    hide WordBit, BitIndex, Or, OneBit;
    OrBits(memory[w], OneBit(i % 32), k);
    OneBitAt(i % 32, w, k);
  }

  lemma OrBits(a: bv32, b: bv32, k: bv5)
    ensures WordBit(Or(a, b), k) <==> WordBit(a, k) || WordBit(b, k)
  {
    hide WordBit;
    BitwiseOps(a, b, k);
  }

  lemma OneBitAt(n: nat, w: nat, k: bv5)
    requires n < 32
    ensures 32 * w <= BitIndex(w, k) < 32 * w + 32
    ensures WordBit(OneBit(n), k) <==> BitIndex(w, k) == 32 * w + n
  {
    hide WordBit, BitIndex;
    MaskBits(n as bv5, k);
    BitIndexBounds(w, k, n);
  }

  lemma MaskBelow(n: nat, mask: bv32, w: nat, k: bv5)
    requires n < 32 && mask == FillLsbs(n as bv5)
    ensures 32 * w <= BitIndex(w, k) < 32 * w + 32
    ensures WordBit(mask, k) <==> BitIndex(w, k) < 32 * w + n
  {
    hide WordBit, BitIndex, FillLsbs;
    MaskBits(n as bv5, k);
    BitIndexBounds(w, k, n);
  }

  /** Bit by bit: what is set afterwards is what was set and the range. */
  lemma SetBitsAt(memory: seq<bv32>, begin: nat, end: nat, i: nat)
    requires begin < end ==> (end - 1) / 32 < |memory|
    requires i / 32 < |memory|
    ensures BitAt(SetBits(memory, begin, end), i) <==> BitAt(memory, i) || begin <= i < end
  {
    hide WordBit, SetBits, BitIndex;
    SetBitsFilled(memory, begin, end);
    BitIndexBounds(i / 32, (i % 32) as bv5, i % 32);
  }

  lemma FilledUnique(before: seq<bv32>, a: seq<bv32>, b: seq<bv32>, begin: nat, end: nat)
    requires Filled(before, a, begin, end) && Filled(before, b, begin, end)
    ensures a == b
  {
    hide WordBit;
    forall w: nat | w < |a| ensures a[w] == b[w] {
      forall k: bv5 ensures WordBit(a[w], k) <==> WordBit(b[w], k) {
      }
      SameBits(a[w], b[w]);
    }
  }

  // --- bitmap_set_bits -----------------------------------------------------------------

  /** bitmap_set_bit */
  method BitmapSetBit(memory: array<bv32>, i: nat)
    requires i / 32 < memory.Length
    modifies memory
    ensures memory[..] == SetBits(old(memory[..]), i, i + 1)
  {
    memory[i / 32] := Or(memory[i / 32], OneBit(i % 32));
  }

  /** *p |= mask */
  method OrWord(memory: array<bv32>, w: nat, mask: bv32)
    requires w < memory.Length
    modifies memory
    ensures Ored(old(memory[..]), memory[..], w, mask)
  {
    hide WordBit, Or;
    ghost var before := memory[..];
    memory[w] := Or(memory[w], mask);
    WordOred(before, memory[..], w, mask);
  }

  lemma WordOred(before: seq<bv32>, after: seq<bv32>, w: nat, mask: bv32)
    requires w < |before| && after == before[w := Or(before[w], mask)]
    ensures Ored(before, after, w, mask)
  {
    hide WordBit, Or;
    forall k: bv5 ensures WordBit(after[w], k) <==> WordBit(before[w], k) || WordBit(mask, k) {
      OrBits(before[w], mask, k);
    }
  }

  /** The masks for both ends of a range that begins at bit b of one word and ends before bit
      e of another. */
  ghost predicate EndMasks(b: nat, e: nat, beginMask: bv32, endMask: bv32) {
    && (forall w: nat, k: bv5 {:trigger WordBit(beginMask, k), BitIndex(w, k)} ::
          32 * w <= BitIndex(w, k) < 32 * w + 32 && (WordBit(beginMask, k) <==> 32 * w + b <= BitIndex(w, k)))
    && (forall w: nat, k: bv5 {:trigger WordBit(endMask, k), BitIndex(w, k)} ::
          32 * w <= BitIndex(w, k) < 32 * w + 32 && (WordBit(endMask, k) <==> BitIndex(w, k) < 32 * w + e))
  }

  lemma EndMasksRight(b: nat, e: nat, beginMask: bv32, endMask: bv32)
    requires b < 32 && e < 32
    requires beginMask == !FillLsbs(b as bv5) && endMask == FillLsbs(e as bv5)
    ensures EndMasks(b, e, beginMask, endMask)
  {
    hide WordBit, BitIndex, FillLsbs;
    forall w: nat, k: bv5
      ensures 32 * w <= BitIndex(w, k) < 32 * w + 32
      ensures WordBit(beginMask, k) <==> 32 * w + b <= BitIndex(w, k)
      ensures WordBit(endMask, k) <==> BitIndex(w, k) < 32 * w + e
    {
      BitwiseOps(FillLsbs(b as bv5), 0, k);
      MaskBelow(b, FillLsbs(b as bv5), w, k);
      MaskBelow(e, endMask, w, k);
    }
  }

  /** bitmap_set_bits: whole words in between, masked words at both ends. With an end at a
      word boundary, too, the word behind it is read and written back. */
  method BitmapSetBits(memory: array<bv32>, begin: nat, end: nat)
    requires begin / 32 <= end / 32 ==> end / 32 < memory.Length
    modifies memory
    ensures memory[..] == SetBits(old(memory[..]), begin, end)
  {
    hide WordBit, BitIndex, FillLsbs, SetBits;
    ghost var before := memory[..];
    var beginPtr, endPtr := begin / SEGMENT_LENGTH, end / SEGMENT_LENGTH;
    var beginMask, endMask := !FillLsbs((begin % 32) as bv5), FillLsbs((end % 32) as bv5);
    EndMasksRight(begin % 32, end % 32, beginMask, endMask);
    if beginPtr < endPtr {
      OrWord(memory, beginPtr, beginMask);
      FirstWordFilled(before, memory[..], begin, end, beginMask, endMask);
      beginPtr := beginPtr + 1;
      while beginPtr < endPtr
        invariant begin / 32 < beginPtr <= endPtr
        invariant Filled(before, memory[..], begin, 32 * beginPtr)
      {
        ghost var m := memory[..];
        memory[beginPtr] := 0xFFFF_FFFF;
        WordFilled(before, m, memory[..], begin, beginPtr);
        beginPtr := beginPtr + 1;
      }
      ghost var m := memory[..];
      OrWord(memory, beginPtr, endMask);
      LastWordFilled(before, m, memory[..], begin, end, beginMask, endMask);
    } else if beginPtr == endPtr {
      OrWord(memory, beginPtr, beginMask & endMask);
      OneWordFilled(before, memory[..], begin, end, beginMask, endMask);
    }
    SetBitsFilled(before, begin, end);
    FilledUnique(before, memory[..], SetBits(before, begin, end), begin, end);
  }

  /** after is before with a mask or-ed into word w. */
  ghost predicate Ored(before: seq<bv32>, after: seq<bv32>, w: nat, mask: bv32) {
    && |after| == |before|
    && forall v: nat, k: bv5 {:trigger WordBit(after[v], k)} :: v < |after| ==>
         (WordBit(after[v], k) <==> WordBit(before[v], k) || (v == w && WordBit(mask, k)))
  }

  lemma FirstWordFilled(before: seq<bv32>, after: seq<bv32>, begin: nat, end: nat, beginMask: bv32, endMask: bv32)
    requires EndMasks(begin % 32, end % 32, beginMask, endMask)
    requires Ored(before, after, begin / 32, beginMask)
    ensures Filled(before, after, begin, 32 * (begin / 32 + 1))
  {
    hide WordBit, BitIndex;
    forall w: nat, k: bv5 | w < |after|
      ensures WordBit(after[w], k) <==> WordBit(before[w], k) || begin <= BitIndex(w, k) < 32 * (begin / 32 + 1)
    {
      assert WordBit(beginMask, k) <==> 32 * w + begin % 32 <= BitIndex(w, k);
    }
  }

  lemma WordFilled(before: seq<bv32>, m: seq<bv32>, after: seq<bv32>, begin: nat, w: nat)
    requires begin <= 32 * w && Filled(before, m, begin, 32 * w) && w < |m| && after == m[w := 0xFFFF_FFFF]
    ensures Filled(before, after, begin, 32 * (w + 1))
  {
    hide WordBit, BitIndex;
    forall v: nat, k: bv5 | v < |after|
      ensures WordBit(after[v], k) <==> WordBit(before[v], k) || begin <= BitIndex(v, k) < 32 * (w + 1)
    {
      BitwiseOps(0, 0, k);
      BitIndexBounds(v, k, 0);
      assert WordBit(m[v], k) <==> WordBit(before[v], k) || begin <= BitIndex(v, k) < 32 * w;
    }
  }

  lemma LastWordFilled(before: seq<bv32>, m: seq<bv32>, after: seq<bv32>, begin: nat, end: nat,
                       beginMask: bv32, endMask: bv32)
    requires EndMasks(begin % 32, end % 32, beginMask, endMask)
    requires begin <= 32 * (end / 32) && Filled(before, m, begin, 32 * (end / 32))
    requires Ored(m, after, end / 32, endMask)
    ensures Filled(before, after, begin, end)
  {
    hide WordBit, BitIndex;
    forall w: nat, k: bv5 | w < |after|
      ensures WordBit(after[w], k) <==> WordBit(before[w], k) || begin <= BitIndex(w, k) < end
    {
      assert WordBit(endMask, k) <==> BitIndex(w, k) < 32 * w + end % 32;
      assert WordBit(m[w], k) <==> WordBit(before[w], k) || begin <= BitIndex(w, k) < 32 * (end / 32);
    }
  }

  lemma OneWordFilled(before: seq<bv32>, after: seq<bv32>, begin: nat, end: nat, beginMask: bv32, endMask: bv32)
    requires EndMasks(begin % 32, end % 32, beginMask, endMask)
    requires begin / 32 == end / 32 && Ored(before, after, end / 32, beginMask & endMask)
    ensures Filled(before, after, begin, end)
  {
    hide WordBit, BitIndex;
    forall w: nat, k: bv5 | w < |after|
      ensures WordBit(after[w], k) <==> WordBit(before[w], k) || begin <= BitIndex(w, k) < end
    {
      BitwiseOps(beginMask, endMask, k);
      assert WordBit(beginMask, k) <==> 32 * w + begin % 32 <= BitIndex(w, k);
      assert WordBit(endMask, k) <==> BitIndex(w, k) < 32 * w + end % 32;
    }
  }
}
