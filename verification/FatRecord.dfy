/** A record of a directory as the FAT file system defines it, and what the program (fat.cpp) reads
    from it. */
module FatRecord {
  import opened Dentry
  import opened Disk

  // --- Kinds of records ----------------------------------------------------------------

  /** No record follows in the directory. */
  predicate IsEnd(r: Record) { r[0] == 0x00 }

  predicate IsErased(r: Record) { r[0] == 0xE5 }

  /** A part of a long name: all of the attributes read-only, hidden, system and label. */
  predicate IsLongName(r: Record) { r[11] % 0x40 == 0x0F }

  /** The volume label. */
  predicate IsLabel(r: Record) { !IsLongName(r) && (r[11] / 0x08) % 2 == 1 }

  predicate IsFolder(r: Record) { (r[11] / 0x10) % 2 == 1 }

  /** The entries of a directory for itself and its parent. */
  predicate IsDotEntry(r: Record) {
    && r[0] == 0x2E && (r[1] == 0x2E || r[1] == 0x20)
    && forall i :: 2 <= i < 11 ==> r[i] == 0x20
  }

  /** A file or directory. */
  predicate IsOrdinary(r: Record) {
    !IsEnd(r) && !IsErased(r) && !IsLongName(r) && !IsLabel(r) && !IsDotEntry(r)
  }

  /** The program knows these kinds by the same marks. */
  lemma KindsRead(r: Record)
    ensures IsDirTableEnd(r) <==> IsEnd(r)
    ensures IsInvalid(r) <==> IsErased(r)
    ensures IsDir(r) <==> IsFolder(r)
    ensures IsDotEntry(r) ==> IsDotDir(r)
    ensures IsLongName(r) || IsLabel(r) ==> IsLfn(r)
  {
  }

  // --- Numbers -------------------------------------------------------------------------

  /** The number of the first cluster: two bytes from 26 on, and two more from 20 on. */
  function FirstCluster(r: Record): nat {
    r[26] as int + 0x100 * r[27] as int + 0x1_0000 * r[20] as int + 0x100_0000 * r[21] as int
  }

  /** The length of a file in bytes, from 28 on. */
  function Length(r: Record): nat {
    r[28] as int + 0x100 * r[29] as int + 0x1_0000 * r[30] as int + 0x100_0000 * r[31] as int
  }

  function WithFirstCluster(r: Record, n: nat): (r': Record) {
    r[26 := n % 0x100][27 := n / 0x100 % 0x100][20 := n / 0x1_0000 % 0x100][21 := n / 0x100_0000 % 0x100]
  }

  function WithLength(r: Record, n: nat): (r': Record) {
    r[28 := n % 0x100][29 := n / 0x100 % 0x100][30 := n / 0x1_0000 % 0x100][31 := n / 0x100_0000 % 0x100]
  }

  lemma NumbersRead(r: Record)
    ensures ClusterNo(r) == FirstCluster(r) && FileSize(r) == Length(r)
  {
  }

  /** A number below 2^32 is the sum of its bytes. */
  lemma BytesOfNumber(n: nat)
    requires n < 0x1_0000_0000
    ensures n == n % 0x100 + 0x100 * (n / 0x100 % 0x100) + 0x1_0000 * (n / 0x1_0000 % 0x100)
                 + 0x100_0000 * (n / 0x100_0000 % 0x100)
  {
  }

  /** Whatever number of a first cluster is put into a record, the program reads it. */
  lemma ClusterRoundTrip(r: Record, n: nat)
    requires n < 0x1_0000_0000
    ensures ClusterNo(WithFirstCluster(r, n)) == n && Length(WithFirstCluster(r, n)) == Length(r)
  {
    BytesOfNumber(n);
    NumbersRead(WithFirstCluster(r, n));
  }

  /** The same for its length. */
  lemma LengthRoundTrip(r: Record, n: nat)
    requires n < 0x1_0000_0000
    ensures FileSize(WithLength(r, n)) == n && FirstCluster(WithLength(r, n)) == FirstCluster(r)
  {
    BytesOfNumber(n);
    NumbersRead(WithLength(r, n));
  }

  // --- Long names ----------------------------------------------------------------------

  /** Where the 13 characters of a part of a long name stand. */
  const UNIT_OFFSETS: seq<nat> := [1, 3, 5, 7, 9, 14, 16, 18, 20, 22, 24, 28, 30]

  function Characters(r: Record): (units: seq<Unit>)
    ensures |units| == 13
  {
    seq(13, i requires 0 <= i < 13 => r[UNIT_OFFSETS[i]] as int + 0x100 * r[UNIT_OFFSETS[i] + 1] as int)
  }

  /** Byte k of these characters, the low byte of each before the high one. */
  function CharacterByte(units: seq<Unit>, k: nat): Byte
    requires k < 2 * |units|
  {
    if k % 2 == 0 then units[k / 2] % 0x100 else units[k / 2] / 0x100
  }

  /** The record with these characters in bytes 1 to 10, 14 to 25 and 28 to 31. */
  function WithCharacters(r: Record, units: seq<Unit>): (r': Record)
    requires |units| == 13
  {
    seq(32, i requires 0 <= i < 32 =>
          if 1 <= i < 11 then CharacterByte(units, i - 1)
          else if 14 <= i < 26 then CharacterByte(units, i - 4)
          else if 28 <= i then CharacterByte(units, i - 6)
          else r[i])
  }

  lemma CharactersRead(r: Record)
    ensures LfnUnits(r) == Characters(r)
  {
  }

  /** Whatever characters are put into a record, the program reads them, whatever else is in it. */
  lemma CharactersRoundTrip(r: Record, units: seq<Unit>)
    requires |units| == 13
    ensures LfnUnits(WithCharacters(r, units)) == units
  {
    var r' := WithCharacters(r, units);
    CharactersRead(r');
    hide LfnUnits;
    forall i | 0 <= i < 13 ensures Characters(r')[i] == units[i] {
      CharacterPlaced(r, units, i);
    }
  }

  lemma CharacterPlaced(r: Record, units: seq<Unit>, i: nat)
    requires |units| == 13 && i < 13
    ensures var r', at := WithCharacters(r, units), UNIT_OFFSETS[i];
            at + 1 < 32 && r'[at] == units[i] % 0x100 && r'[at + 1] == units[i] / 0x100
  {
  }

  // --- Short names ---------------------------------------------------------------------

  /** The bytes without the spaces that fill them up. */
  function WithoutFill(bytes: seq<Byte>): (r: seq<Byte>)
    ensures |r| <= |bytes| && r == bytes[..|r|]
  {
    if bytes != [] && bytes[|bytes| - 1] == 0x20 then WithoutFill(bytes[..|bytes| - 1]) else bytes
  }

  /** A letter from A to Z in lower case. */
  function Lower(b: Byte): Byte { if 0x41 <= b < 0x5B then 0x61 + (b - 0x41) else b }

  function Cased(bytes: seq<Byte>, lower: bool): (units: seq<Unit>)
    ensures |units| == |bytes|
  {
    seq(|bytes|, i requires 0 <= i < |bytes| => if lower then Lower(bytes[i]) else bytes[i])
  }

  /** The first eight bytes; a 5 in front stands for E5, the mark of an erased record. */
  function BaseField(r: Record): (base: seq<Byte>)
    ensures |base| == 8
  {
    if r[0] == 5 then [0xE5] + r[1..8] else r[..8]
  }

  /** The name and the extension behind a dot, each in lower case if so marked, and a zero. */
  function FatShortName(r: Record): (units: seq<Unit>) {
    var base, extension := WithoutFill(BaseField(r)), WithoutFill(r[8..11]);
    Cased(base, (r[12] / 0x08) % 2 == 1)
    + (if extension == [] then [] else [0x2E] + Cased(extension, (r[12] / 0x10) % 2 == 1))
    + [0]
  }

  /** A space with something behind it. */
  predicate HasGap(bytes: seq<Byte>) {
    exists i, j :: 0 <= i < j < |bytes| && bytes[i] == 0x20 && bytes[j] != 0x20
  }

  /** The program takes the bytes up to the first space. */
  lemma {:induction false} TrimmedIs(bytes: seq<Byte>, lower: bool)
    ensures var n := |Trimmed(bytes, lower)|;
            && n <= |WithoutFill(bytes)| && Trimmed(bytes, lower) == Cased(bytes[..n], lower)
            && (n == |WithoutFill(bytes)| <==> !HasGap(bytes))
            && (n < |bytes| ==> bytes[n] == 0x20)
            && (n == 0 <==> bytes == [] || bytes[0] == 0x20)
  {
    hide HasGap;
    UpToSpace(bytes, lower);
    FillIsSpace(bytes);
    var n, m := |Trimmed(bytes, lower)|, |WithoutFill(bytes)|;
    assert m < |bytes| ==> bytes[m] == 0x20;
    if n < m { GapAt(bytes, n, m - 1); } else { NoGap(bytes, m); }
  }

  lemma GapAt(bytes: seq<Byte>, i: nat, j: nat)
    requires i < j < |bytes| && bytes[i] == 0x20 && bytes[j] != 0x20
    ensures HasGap(bytes)
  {
  }

  lemma NoGap(bytes: seq<Byte>, n: nat)
    requires n <= |bytes|
    requires forall i :: 0 <= i < n ==> bytes[i] != 0x20
    requires forall i :: n <= i < |bytes| ==> bytes[i] == 0x20
    ensures !HasGap(bytes)
  {
  }

  lemma {:induction false} UpToSpace(bytes: seq<Byte>, lower: bool)
    ensures var n := |Trimmed(bytes, lower)|;
            && n <= |bytes| && Trimmed(bytes, lower) == Cased(bytes[..n], lower)
            && (forall i :: 0 <= i < n ==> bytes[i] != 0x20) && (n < |bytes| ==> bytes[n] == 0x20)
  {
    if bytes != [] && bytes[0] != SPACE {
      var tail, n := bytes[1..], |Trimmed(bytes, lower)|;
      UpToSpace(tail, lower);
      assert bytes == [bytes[0]] + tail && bytes[..n] == [bytes[0]] + tail[..n - 1];
      assert Cased([bytes[0]], lower) + Cased(tail[..n - 1], lower) == Cased(bytes[..n], lower);
      assert Cased([bytes[0]], lower) == [if lower then ToLower(bytes[0]) else bytes[0]];
      forall i | 0 <= i < n ensures bytes[i] != 0x20 {
        assert i > 0 ==> bytes[i] == tail[i - 1];
      }
    }
  }

  lemma {:induction false} FillIsSpace(bytes: seq<Byte>)
    ensures var n := |WithoutFill(bytes)|;
            && (forall i :: n <= i < |bytes| ==> bytes[i] == 0x20)
            && (n > 0 ==> bytes[n - 1] != 0x20)
  {
    if bytes != [] && bytes[|bytes| - 1] == 0x20 {
      FillIsSpace(bytes[..|bytes| - 1]);
    }
  }

  /** The program reads a short name right exactly if it does not begin with 5 and has no space with
      something behind it in either part. */
  lemma ShortNameReadIff(r: Record)
    ensures ShortName(r) == FatShortName(r) <==> r[0] != 5 && !HasGap(r[..8]) && !HasGap(r[8..11])
  {
    hide HasGap, Trimmed, WithoutFill, Cased;
    var base, lower := r[..8], HasLowerName(r);
    TrimmedIs(base, lower);
    if r[0] == 5 {
      FiveInFront(r);
    } else {
      var p, q := |Trimmed(base, lower)|, |WithoutFill(base)|;
      assert BaseField(r) == base;
      if p < q {
        GapInBase(r);
      } else {
        assert base[..p] == WithoutFill(base);
        ExtensionReadIff(r);
      }
    }
  }

  lemma FiveInFront(r: Record)
    requires r[0] == 5
    ensures ShortName(r) != FatShortName(r)
  {
    hide HasGap, Trimmed, WithoutFill;
    TrimmedIs(r[..8], HasLowerName(r));
    TrimmedIs(BaseField(r), HasLowerName(r));
    assert WithoutFill(BaseField(r))[0] == 0xE5;
    assert ShortName(r)[0] == 5 && FatShortName(r)[0] == 0xE5;
  }

  lemma GapInBase(r: Record)
    requires r[0] != 5 && |Trimmed(r[..8], HasLowerName(r))| < |WithoutFill(r[..8])|
    ensures ShortName(r) != FatShortName(r)
  {
    hide HasGap, Trimmed, WithoutFill;
    var base, p := r[..8], |Trimmed(r[..8], HasLowerName(r))|;
    assert BaseField(r) == base;
    TrimmedIs(base, HasLowerName(r));
    assert WithoutFill(base)[p] == 0x20 && FatShortName(r)[p] == 0x20;
    assert ShortName(r)[p] == if HasExtension(r) then 0x2E else 0;
  }

  lemma ExtensionReadIff(r: Record)
    requires r[0] != 5 && Trimmed(r[..8], HasLowerName(r)) == Cased(WithoutFill(r[..8]), HasLowerName(r))
    ensures ShortName(r) == FatShortName(r) <==> !HasGap(r[8..11])
  {
    hide HasGap, Trimmed, WithoutFill, Cased;
    var extension, lower := r[8..11], HasLowerExtension(r);
    var e, f := |Trimmed(extension, lower)|, |WithoutFill(extension)|;
    var start := Trimmed(r[..8], HasLowerName(r));
    assert BaseField(r) == r[..8];
    TrimmedIs(extension, lower);
    if e < f {
      GapInExtension(r, start, e);
    } else {
      assert extension[..e] == WithoutFill(extension);
    }
  }

  lemma GapInExtension(r: Record, start: seq<Unit>, e: nat)
    requires r[0] != 5 && start == Trimmed(r[..8], HasLowerName(r)) == Cased(WithoutFill(r[..8]), HasLowerName(r))
    requires e == |Trimmed(r[8..11], HasLowerExtension(r))| < |WithoutFill(r[8..11])|
    ensures ShortName(r) != FatShortName(r)
  {
    hide HasGap, Trimmed, WithoutFill;
    var extension := r[8..11];
    assert BaseField(r) == r[..8];
    TrimmedIs(extension, HasLowerExtension(r));
    if e == 0 {
      assert ShortName(r)[|start|] == 0 && FatShortName(r)[|start|] == 0x2E;
    } else {
      assert WithoutFill(extension)[e] == 0x20;
      assert ShortName(r)[|start| + 1 + e] == 0 && FatShortName(r)[|start| + 1 + e] == 0x20;
    }
  }

  /** The short name A B is read as A. */
  lemma NameCutAtSpace(r: Record)
    requires r[..11] == [0x41, 0x20, 0x42] + seq(8, _ => 0x20) && r[12] == 0
    ensures FatShortName(r) == [0x41, 0x20, 0x42, 0] && ShortName(r) == [0x41, 0]
  {
    assert r[..8] == r[..11][..8] && r[8..11] == r[..11][8..];
    assert [0x41, 0x20, 0x42][..3] == [0x41, 0x20, 0x42];
    FilledUp([0x41, 0x20, 0x42], r[..8]);
    FilledUp([], r[8..11]);
    assert Trimmed(r[..8][1..], false) == [];
  }

  /** Spaces behind the bytes are left out. */
  lemma {:induction false} FilledUp(start: seq<Byte>, bytes: seq<Byte>)
    requires |start| <= |bytes| && bytes[..|start|] == start && (start != [] ==> start[|start| - 1] != 0x20)
    requires forall i :: |start| <= i < |bytes| ==> bytes[i] == 0x20
    ensures WithoutFill(bytes) == start
    decreases |bytes|
  {
    if |start| < |bytes| {
      FilledUp(start, bytes[..|bytes| - 1]);
    }
  }
}
