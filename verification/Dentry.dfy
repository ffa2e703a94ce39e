/** Directory records of a FAT volume (fat.cpp). */
module Dentry {
  import opened Disk

  const LFN_ENTRY_LENGTH: nat := 13
  const DELETED: Byte := 0xE5
  const SPACE: Byte := 0x20
  const DOT: Byte := 0x2E

  predicate IsDir(r: Record) { (r[11] / 0x10) % 2 == 1 }

  /** Any of the four low attribute bits makes the record a long name entry. */
  predicate IsLfn(r: Record) { r[11] % 0x10 != 0 }

  predicate IsInvalid(r: Record) { r[0] == DELETED }

  predicate IsDotDir(r: Record) { r[0] == DOT }

  predicate IsDirTableEnd(r: Record) { r[0] == 0 }

  function LfnSequenceNo(r: Record): nat { r[0] % 0x20 }

  function LittleEndian(lo: Byte, hi: Byte): Unit {
    (lo as int) + 0x100 * (hi as int)
  }

  /** file_cluster_no */
  function ClusterNo(r: Record): nat {
    (LittleEndian(r[20], r[21]) as int) * 0x1_0000 + LittleEndian(r[26], r[27]) as int
  }

  /** file_size */
  function FileSize(r: Record): nat {
    (LittleEndian(r[30], r[31]) as int) * 0x1_0000 + LittleEndian(r[28], r[29]) as int
  }

  predicate HasLowerName(r: Record) { (r[12] / 8) % 2 == 1 }

  predicate HasLowerExtension(r: Record) { (r[12] / 0x10) % 2 == 1 }

  predicate HasExtension(r: Record) { r[8] != SPACE }

  function UnitAt(r: Record, i: nat): Unit
    requires i + 1 < 32
  {
    LittleEndian(r[i], r[i + 1])
  }

  /** lfn_cpy: the 13 units of a long name entry. */
  function LfnUnits(r: Record): (units: seq<Unit>)
    ensures |units| == LFN_ENTRY_LENGTH
  {
    seq(13, i requires 0 <= i < 13 => UnitAt(r, if i < 5 then 1 + 2 * i else if i < 11 then 4 + 2 * i else 6 + 2 * i))
  }

  /** tolower in the C locale. */
  function ToLower(b: Byte): Byte {
    if 0x41 <= b <= 0x5A then b + 0x20 else b
  }

  /** The bytes up to the first space, in lower case if so marked. */
  function Trimmed(bytes: seq<Byte>, lower: bool): (units: seq<Unit>)
    ensures |units| <= |bytes|
  {
    if bytes == [] || bytes[0] == SPACE then []
    else [if lower then ToLower(bytes[0]) else bytes[0]] + Trimmed(bytes[1..], lower)
  }

  /** The 8.3 name with its dot, closed by a zero. */
  function ShortName(r: Record): (units: seq<Unit>)
    ensures 0 < |units| <= LFN_ENTRY_LENGTH
  {
    Trimmed(r[..8], HasLowerName(r))
    + (if HasExtension(r) then [DOT as Unit] + Trimmed(r[8..11], HasLowerExtension(r)) else [])
    + [0]
  }

  /** One loop of read_short_name. */
  method AppendTrimmed(bytes: seq<Byte>, lower: bool, name: seq<Unit>) returns (name': seq<Unit>)
    ensures name' == name + Trimmed(bytes, lower)
  {
    name' := name;
    var i := 0;
    while i < |bytes| && bytes[i] != SPACE
      invariant 0 <= i <= |bytes|
      invariant name' + Trimmed(bytes[i..], lower) == name + Trimmed(bytes, lower)
    {
      name' := name' + [if lower then ToLower(bytes[i]) else bytes[i]];
      i := i + 1;
    }
    assert Trimmed(bytes[i..], lower) == [];
  }

  /** read_short_name */
  method ReadShortName(r: Record) returns (name: seq<Unit>)
    ensures name == ShortName(r)
  {
    name := AppendTrimmed(r[..8], HasLowerName(r), []);
    if HasExtension(r) {
      name := name + [DOT as Unit];
      name := AppendTrimmed(r[8..11], HasLowerExtension(r), name);
    }
    name := name + [0];
    ghost var base := Trimmed(r[..8], HasLowerName(r));
    assert HasExtension(r) ==>
      (base + [DOT as Unit]) + Trimmed(r[8..11], HasLowerExtension(r))
      == base + ([DOT as Unit] + Trimmed(r[8..11], HasLowerExtension(r)));
  }

  // --- The entries of a directory ------------------------------------------------------

  predicate IsLive(r: Record) { !IsInvalid(r) && !IsDotDir(r) }

  /** The records next_dentry lets through. */
  function Live(records: seq<Record>): seq<Record> {
    if records == [] then []
    else (if IsLive(records[0]) then [records[0]] else []) + Live(records[1..])
  }

  /** A file or directory as traverse finds it: its record and the segments of its name. */
  datatype RawEntry = RawEntry(record: Record, name: seq<seq<Unit>>)

  datatype Parsed = Crash | Entries(entries: seq<RawEntry>)

  /** How many records precede the one that counts. */
  function NameRecords(r: Record): nat {
    if IsLfn(r) then LfnSequenceNo(r) else 0
  }

  /** The units of n long name entries, the last one first. */
  function LfnSegments(records: seq<Record>, n: nat): (name: seq<seq<Unit>>)
    requires n <= |records|
    ensures |name| == n && forall i :: 0 <= i < n ==> name[i] == LfnUnits(records[n - 1 - i])
  {
    seq(n, i requires 0 <= i < n => LfnUnits(records[n - 1 - i]))
  }

  /** The name segments of the entry that starts with these records: the units of the long
      name entries, last one first, or the short name. */
  function NameSegments(records: seq<Record>): (name: seq<seq<Unit>>)
    requires 0 < |records| && NameRecords(records[0]) <= |records|
    ensures IsLfn(records[0]) ==> |name| == NameRecords(records[0])
  {
    var n := NameRecords(records[0]);
    if IsLfn(records[0]) then LfnSegments(records, n)
    else [ShortName(records[0])]
  }

  /** What the loop in traverse makes of the live records of a directory. It crashes when the
      records end inside a long name. */
  function Parse(records: seq<Record>): Parsed {
    if records == [] || IsDirTableEnd(records[0]) then Entries([])
    else
      var n := NameRecords(records[0]);
      if |records| <= n then Crash
      else
        var rest := Parse(records[n + 1..]);
        if rest.Crash? then Crash
        else Entries([RawEntry(records[n], NameSegments(records))] + rest.entries)
  }
}
