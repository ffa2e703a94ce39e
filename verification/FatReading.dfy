/** What a FAT directory lists, read as the FAT file system defines it, and when the program's
    reading (metadata_reader.cpp, fat.cpp) finds the same. */
module FatReading {
  import opened Dentry
  import opened Disk
  import opened FatRecord

  // --- What a directory lists ----------------------------------------------------------

  /** The checksum of a short name that its long name entries carry. */
  function Checksum(name: seq<Byte>): Byte {
    if name == [] then 0
    else
      var sum := Checksum(name[..|name| - 1]) as int;
      (sum % 2 * 0x80 + sum / 2 + name[|name| - 1] as int) % 0x100
  }

  /** The number of long name entries a first one announces. */
  function Announced(r: Record): nat {
    if 0x41 <= r[0] <= 0x54 then r[0] as int - 0x40 else 0
  }

  /** A complete long name: its entries in descending order, marked as belonging to the record
      behind them. */
  predicate CompleteSet(rs: seq<Record>)
    requires rs != []
  {
    var n := Announced(rs[0]);
    && 0 < n < |rs| && IsOrdinary(rs[n])
    && forall j :: 0 <= j < n ==>
         && IsLongName(rs[j]) && rs[j][0] as int == (n - j) + (if j == 0 then 0x40 else 0)
         && rs[j][13] == Checksum(rs[n][..11])
  }

  /** The characters of n parts of a long name, the last one first. */
  function LongName(rs: seq<Record>, n: nat): (name: seq<seq<Unit>>)
    requires n <= |rs|
    ensures |name| == n
  {
    seq(n, i requires 0 <= i < n => Characters(rs[n - 1 - i]))
  }

  lemma LongNameRead(rs: seq<Record>, n: nat)
    requires n <= |rs|
    ensures LfnSegments(rs, n) == LongName(rs, n)
  {
    hide LfnUnits, Characters;
    forall i | 0 <= i < n ensures LfnSegments(rs, n)[i] == LongName(rs, n)[i] {
      CharactersRead(rs[n - 1 - i]);
    }
  }

  /** The files and directories with their names. A long name without its record is ignored. */
  function FatEntries(rs: seq<Record>): seq<RawEntry>
    decreases |rs|
  {
    if rs == [] || IsEnd(rs[0]) then []
    else if IsErased(rs[0]) then FatEntries(rs[1..])
    else if IsLongName(rs[0]) then
      if CompleteSet(rs) then
        var n := Announced(rs[0]);
        [RawEntry(rs[n], LongName(rs, n))] + FatEntries(rs[n + 1..])
      else FatEntries(rs[1..])
    else if IsOrdinary(rs[0]) then [RawEntry(rs[0], [FatShortName(rs[0])])] + FatEntries(rs[1..])
    else FatEntries(rs[1..])
  }

  // --- When the program reads the same -------------------------------------------------

  /** A record that stands alone and is read as something else: a low attribute bit is set, or the
      short name begins with a dot or with 5, or has a space with something behind it. */
  predicate IsStray(r: Record) {
    r[11] % 0x10 != 0 || r[0] == 0x2E || r[0] == 5 || HasGap(r[..8]) || HasGap(r[8..11])
  }

  /** Up to the end of the directory, no record that stands alone is stray, and all long names are
      complete. */
  predicate NoStray(rs: seq<Record>)
    decreases |rs|
  {
    if rs == [] || IsEnd(rs[0]) then true
    else if IsErased(rs[0]) || IsDotEntry(rs[0]) then NoStray(rs[1..])
    else if IsLongName(rs[0]) then
      CompleteSet(rs) && rs[Announced(rs[0])][0] != 0x2E && NoStray(rs[Announced(rs[0]) + 1..])
    else !IsStray(rs[0]) && NoStray(rs[1..])
  }

  /** The characters of a short name or label: no control characters, and no dot. */
  predicate IsLegalName(r: Record) {
    forall i :: 0 <= i < 11 ==> (r[i] >= 0x20 || (i == 0 && r[0] == 5)) && r[i] != 0x2E
  }

  /** A directory as a FAT file system keeps it: long names are complete, short names and labels
      are legal. */
  predicate IsRegular(rs: seq<Record>)
    decreases |rs|
  {
    if rs == [] || IsEnd(rs[0]) then true
    else if IsErased(rs[0]) || IsDotEntry(rs[0]) then IsRegular(rs[1..])
    else if IsLongName(rs[0]) then
      CompleteSet(rs) && IsLegalName(rs[Announced(rs[0])]) && IsRegular(rs[Announced(rs[0]) + 1..])
    else IsLegalName(rs[0]) && IsRegular(rs[1..])
  }

  lemma {:induction false} LivePrefix(rs: seq<Record>, n: nat)
    requires n <= |rs| && forall j :: 0 <= j < n ==> IsLive(rs[j])
    ensures Live(rs) == rs[..n] + Live(rs[n..])
    decreases n
  {
    if n == 0 {
      assert rs[..0] + Live(rs[0..]) == Live(rs) by { assert rs[0..] == rs; }
    } else {
      LivePrefix(rs[1..], n - 1);
      assert rs[1..][n - 1..] == rs[n..];
      assert [rs[0]] + rs[1..][..n - 1] == rs[..n];
    }
  }

  lemma SetElementIsLive(rs: seq<Record>, j: nat)
    requires rs != [] && CompleteSet(rs) && j <= Announced(rs[0]) && !IsDotDir(rs[Announced(rs[0])])
    ensures IsLive(rs[j])
  {
    hide Checksum;
  }

  lemma FirstOfSet(rs: seq<Record>)
    requires rs != [] && CompleteSet(rs)
    ensures IsLfn(rs[0]) && !IsDirTableEnd(rs[0]) && NameRecords(rs[0]) == Announced(rs[0])
  {
    hide Checksum;
    assert IsLongName(rs[0]);
  }

  /** A complete long name is live, and the program counts its entries as the set does. */
  lemma SetIsLive(rs: seq<Record>)
    requires rs != [] && CompleteSet(rs) && !IsDotDir(rs[Announced(rs[0])])
    ensures var n := Announced(rs[0]);
            && IsLfn(rs[0]) && !IsDirTableEnd(rs[0]) && NameRecords(rs[0]) == n < |rs|
            && Live(rs) == rs[..n + 1] + Live(rs[n + 1..])
  {
    hide Checksum, Live, IsLive, IsLfn, NameRecords, IsDirTableEnd;
    FirstOfSet(rs);
    var n := Announced(rs[0]);
    forall j | 0 <= j < n + 1 ensures IsLive(rs[j]) {
      SetElementIsLive(rs, j);
    }
    LivePrefix(rs, n + 1);
  }

  /** One entry of the program's reading. */
  lemma ParseHead(live: seq<Record>, n: nat, tail: seq<Record>)
    requires n < |live| && live[n + 1..] == tail && !IsDirTableEnd(live[0]) && NameRecords(live[0]) == n
    ensures Parse(live) == if Parse(tail).Crash? then Crash
                           else Entries([RawEntry(live[n], NameSegments(live))] + Parse(tail).entries)
  {
    hide NameRecords, NameSegments, IsDirTableEnd;
  }

  /** Then the program finds exactly the files and directories, with their names. */
  lemma {:induction false} ReadRight(rs: seq<Record>)
    requires NoStray(rs)
    ensures Parse(Live(rs)) == Entries(FatEntries(rs))
    decreases |rs|, 1
  {
    hide Checksum, LfnUnits, ShortName, FatShortName, Parse, CompleteSet, IsLongName, IsDotEntry, IsLabel, IsLfn;
    if rs == [] || IsEnd(rs[0]) {
      ParseEnd(Live(rs));
    } else if IsErased(rs[0]) || IsDotEntry(rs[0]) {
      SkippedKinds(rs[0]);
      if IsDotEntry(rs[0]) { DotIsNoSet(rs); }
      assert [] + Live(rs[1..]) == Live(rs[1..]);
      ReadRight(rs[1..]);
    } else if IsLongName(rs[0]) {
      SetReadRight(rs);
    } else {
      SkippedKinds(rs[0]);
      ShortNameReadIff(rs[0]);
      ReadRight(rs[1..]);
      ParseHead(Live(rs), 0, Live(rs[1..]));
    }
  }

  lemma DotIsNoSet(rs: seq<Record>)
    requires rs != [] && IsDotEntry(rs[0])
    ensures !CompleteSet(rs)
  {
  }

  lemma ParseEnd(live: seq<Record>)
    requires live == [] || IsDirTableEnd(live[0])
    ensures Parse(live) == Entries([])
  {
  }

  lemma SkippedKinds(r: Record)
    ensures IsDotEntry(r) ==> IsDotDir(r)
    ensures IsDotEntry(r) || IsErased(r) ==> !IsOrdinary(r)
    ensures IsDotEntry(r) || IsErased(r) ==> !IsLive(r)
    ensures IsLabel(r) ==> IsLfn(r)
    ensures !IsEnd(r) && !IsErased(r) && !IsLongName(r) && !IsDotEntry(r) && !IsLabel(r) ==> IsOrdinary(r)
    ensures !IsStray(r) && !IsErased(r) ==> IsLive(r)
    ensures !IsStray(r) ==> !IsLfn(r) && !IsLabel(r)
  {
  }

  lemma {:induction false} SetReadRight(rs: seq<Record>)
    requires NoStray(rs) && rs != [] && !IsEnd(rs[0]) && !IsErased(rs[0]) && !IsDotEntry(rs[0])
    requires IsLongName(rs[0])
    ensures Parse(Live(rs)) == Entries(FatEntries(rs))
    decreases |rs|, 0
  {
    hide Checksum, LfnUnits, Parse, Live, IsLfn, NameRecords, CompleteSet, IsLongName, IsDotEntry;
    SetHead(rs);
    ReadRight(rs[Announced(rs[0]) + 1..]);
  }

  lemma SetNames(rs: seq<Record>, live: seq<Record>, n: nat)
    requires n < |rs| && n < |live| && live[..n + 1] == rs[..n + 1] && IsLfn(live[0]) && NameRecords(live[0]) == n
    ensures NameSegments(live) == LfnSegments(rs, n)
  {
    hide LfnUnits, LfnSegments, IsLfn, NameRecords;
    forall i | 0 <= i < n ensures LfnSegments(live, n)[i] == LfnSegments(rs, n)[i] {
      var k := n - 1 - i;
      assert live[k] == live[..n + 1][k] && rs[k] == rs[..n + 1][k];
    }
  }

  lemma Joined(rs: seq<Record>, n: nat, all: seq<Record>, tail: seq<Record>)
    requires 0 < n <= |rs| && all == rs[..n] + tail
    ensures |all| >= n && all[..n] == rs[..n] && all[n..] == tail && all[0] == rs[0]
  {
  }

  /** The program's entry for a complete long name is the right one. */
  lemma SetHead(rs: seq<Record>)
    requires rs != [] && !IsErased(rs[0]) && IsLongName(rs[0]) && CompleteSet(rs) && !IsDotDir(rs[Announced(rs[0])])
    ensures Announced(rs[0]) < |rs|
    ensures var n := Announced(rs[0]);
            var head := RawEntry(rs[n], LongName(rs, n));
            && Parse(Live(rs)) == (match Parse(Live(rs[n + 1..]))
                                   case Crash => Crash
                                   case Entries(rest) => Entries([head] + rest))
  {
    hide Checksum, LfnUnits, LfnSegments, NameSegments, Parse, Live, CompleteSet, IsLongName, IsLfn, NameRecords,
         Announced, IsDotDir, IsErased, IsDirTableEnd;
    SetIsLive(rs);
    var n := Announced(rs[0]);
    LongNameRead(rs, n);
    Joined(rs, n + 1, Live(rs), Live(rs[n + 1..]));
    ParseHead(Live(rs), n, Live(rs[n + 1..]));
    SetNames(rs, Live(rs), n);
  }

  // --- And when not --------------------------------------------------------------------

  lemma ShortNameStart(r: Record)
    ensures FatShortName(r) != [] && FatShortName(r)[0] < 0x100
  {
  }

  /** The legal characters of a short name never read as the units of a long one. */
  lemma StrayUnits(r: Record)
    requires IsLegalName(r)
    ensures LfnUnits(r)[0] >= 0x2000
  {
    assert LfnUnits(r)[0] == UnitAt(r, 1);
  }

  /** What the program makes of a stray record in front of the live records tail: nothing at all,
      an entry without a name, or one whose last segment comes from the stray record. */
  lemma StrayHead(live: seq<Record>)
    requires live != [] && IsLfn(live[0]) && IsLegalName(live[0])
    ensures var p := Parse(live);
            var n := NameRecords(live[0]);
            p.Crash? || (n < |live| && p.entries != [] && p.entries[0].record == live[n] && |p.entries[0].name| == n
                         && (n > 0 ==> p.entries[0].name[n - 1] == LfnUnits(live[0]) && LfnUnits(live[0])[0] >= 0x2000))
  {
    hide LfnUnits;
    StrayUnits(live[0]);
    assert !IsDirTableEnd(live[0]);
  }

  /** Behind nothing but labels, no right entry looks like that. */
  lemma {:induction false} NoRightHead(labels: seq<Record>, rs: seq<Record>, n: nat, name: seq<seq<Unit>>)
    requires labels != [] && (forall i :: 0 <= i < |labels| ==> IsLabel(labels[i]))
    requires n < |labels + Live(rs)| && |name| == n && (n > 0 ==> name[n - 1] != [] && name[n - 1][0] >= 0x2000)
    requires IsRegular(rs)
    ensures FatEntries(rs) != [] ==> FatEntries(rs)[0] != RawEntry((labels + Live(rs))[n], name)
    decreases |rs|
  {
    hide Characters, LongName, ShortName, FatShortName, Checksum, IsLegalName;
    if rs == [] || IsEnd(rs[0]) {
    } else if IsErased(rs[0]) || IsDotEntry(rs[0]) {
      SkippedKinds(rs[0]);
      if IsDotEntry(rs[0]) { DotIsNoSet(rs); }
      assert [] + Live(rs[1..]) == Live(rs[1..]);
      NoRightHead(labels, rs[1..], n, name);
    } else if IsLongName(rs[0]) {
      SetIsNotHead(labels, rs, n, name);
    } else if IsLabel(rs[0]) {
      LegalIsLive(rs[0]);
      assert labels + Live(rs) == (labels + [rs[0]]) + Live(rs[1..]);
      NoRightHead(labels + [rs[0]], rs[1..], n, name);
    } else {
      SkippedKinds(rs[0]);
      ShortNameStart(rs[0]);
    }
  }

  lemma LegalIsLive(r: Record)
    requires IsLegalName(r) && !IsErased(r)
    ensures IsLive(r) && !IsDirTableEnd(r)
  {
  }

  /** The record behind a complete long name is neither a label nor part of that name. */
  lemma SetIsNotHead(labels: seq<Record>, rs: seq<Record>, n: nat, name: seq<seq<Unit>>)
    requires labels != [] && (forall i :: 0 <= i < |labels| ==> IsLabel(labels[i]))
    requires n < |labels + Live(rs)| && |name| == n && rs != [] && IsRegular(rs)
    requires !IsEnd(rs[0]) && !IsErased(rs[0]) && !IsDotEntry(rs[0]) && IsLongName(rs[0])
    ensures FatEntries(rs) != [] && FatEntries(rs)[0] != RawEntry((labels + Live(rs))[n], name)
  {
    hide LfnUnits, LfnSegments, Checksum, Live, IsLfn, NameRecords;
    var m := Announced(rs[0]);
    LegalIsNoDot(rs[m]);
    SetIsLive(rs);
    if m == n {
      var at := (labels + Live(rs))[n];
      if n < |labels| {
        assert at == labels[n];
      } else {
        assert at == Live(rs)[n - |labels|] == rs[n - |labels|];
      }
    }
  }

  lemma LegalIsNoDot(r: Record)
    requires IsLegalName(r)
    ensures !IsDotDir(r)
  {
  }

  /** A stray record in front makes the program's reading wrong, whatever follows. */
  lemma StrayFirst(rs: seq<Record>)
    requires rs != [] && IsRegular(rs) && !IsEnd(rs[0]) && !IsErased(rs[0]) && !IsDotEntry(rs[0])
    requires !IsLongName(rs[0]) && IsLfn(rs[0])
    ensures Parse(Live(rs)) != Entries(FatEntries(rs))
  {
    hide LfnUnits, LfnSegments, ShortName, FatShortName, Checksum, Parse, IsLfn, NameRecords, IsLabel, IsLongName,
         IsDotEntry;
    LegalIsLive(rs[0]);
    StrayHead(Live(rs));
    var p, n := Parse(Live(rs)), NameRecords(rs[0]);
    if p.Entries? && FatEntries(rs) != [] {
      assert Live(rs) == [rs[0]] + Live(rs[1..]);
      if IsLabel(rs[0]) {
        NoRightHead([rs[0]], rs[1..], n, p.entries[0].name);
      } else {
        SkippedKinds(rs[0]);
        ShortNameStart(rs[0]);
      }
    }
  }

  lemma SetBound(rs: seq<Record>)
    requires rs != [] && CompleteSet(rs)
    ensures Announced(rs[0]) < |rs|
  {
  }

  lemma {:induction false} ReadWrong(rs: seq<Record>)
    requires IsRegular(rs) && !NoStray(rs)
    ensures Parse(Live(rs)) != Entries(FatEntries(rs))
    decreases |rs|, 1
  {
    hide LfnUnits, LfnSegments, ShortName, FatShortName, Checksum, Parse, IsLfn, IsLabel, IsLongName, IsDotEntry,
         CompleteSet, IsLegalName;
    if IsErased(rs[0]) || IsDotEntry(rs[0]) {
      SkippedKinds(rs[0]);
      if IsDotEntry(rs[0]) { DotIsNoSet(rs); }
      assert [] + Live(rs[1..]) == Live(rs[1..]);
      ReadWrong(rs[1..]);
    } else if IsLongName(rs[0]) {
      SetReadWrong(rs);
    } else if IsLfn(rs[0]) {
      StrayFirst(rs);
    } else {
      OrdinaryReadWrong(rs);
    }
  }

  lemma {:induction false} SetReadWrong(rs: seq<Record>)
    requires IsRegular(rs) && !NoStray(rs) && !IsErased(rs[0]) && !IsDotEntry(rs[0]) && IsLongName(rs[0])
    ensures Parse(Live(rs)) != Entries(FatEntries(rs))
    decreases |rs|, 0
  {
    hide LfnUnits, LfnSegments, Checksum, Parse, Live, IsLongName, IsDotEntry, CompleteSet, IsLegalName;
    SetBound(rs);
    var n := Announced(rs[0]);
    LegalIsNoDot(rs[n]);
    SetHead(rs);
    ReadWrong(rs[n + 1..]);
    WrongBehind(RawEntry(rs[n], LongName(rs, n)), Parse(Live(rs[n + 1..])), FatEntries(rs[n + 1..]));
  }

  lemma {:induction false} OrdinaryReadWrong(rs: seq<Record>)
    requires IsRegular(rs) && !NoStray(rs) && !IsErased(rs[0]) && !IsDotEntry(rs[0])
    requires !IsLongName(rs[0]) && !IsLfn(rs[0])
    ensures Parse(Live(rs)) != Entries(FatEntries(rs))
    decreases |rs|, 0
  {
    hide LfnUnits, ShortName, FatShortName, Parse, IsLive, IsLabel, IsLongName, IsDotEntry, IsLegalName, IsOrdinary,
         HasGap;
    SkippedKinds(rs[0]);
    LegalIsLive(rs[0]);
    LegalIsNoDot(rs[0]);
    assert Live(rs) == [rs[0]] + Live(rs[1..]);
    ParseHead(Live(rs), 0, Live(rs[1..]));
    ShortNameReadIff(rs[0]);
    if IsStray(rs[0]) {
      OtherName(rs[0], ShortName(rs[0]), FatShortName(rs[0]), Parse(Live(rs[1..])), FatEntries(rs[1..]));
    } else {
      ReadWrong(rs[1..]);
      WrongBehind(RawEntry(rs[0], [ShortName(rs[0])]), Parse(Live(rs[1..])), FatEntries(rs[1..]));
    }
  }

  lemma OtherName(r: Record, name: seq<Unit>, name2: seq<Unit>, read: Parsed, right: seq<RawEntry>)
    requires name != name2
    ensures read.Entries? ==> [RawEntry(r, [name])] + read.entries != [RawEntry(r, [name2])] + right
  {
    if read.Entries? {
      assert ([RawEntry(r, [name])] + read.entries)[0].name[0] == name;
      assert ([RawEntry(r, [name2])] + right)[0].name[0] == name2;
    }
  }

  /** A wrong reading stays wrong behind a right entry. */
  lemma WrongBehind(head: RawEntry, read: Parsed, right: seq<RawEntry>)
    requires read != Entries(right)
    ensures read.Entries? ==> [head] + read.entries != [head] + right
  {
    if read.Entries? {
      assert ([head] + read.entries)[1..] == read.entries && ([head] + right)[1..] == right;
    }
  }

  /** The program lists a regular directory as it is if and only if no record that stands alone is
      stray: a label, or a read-only, hidden or system file with a short name only, is taken for a
      part of a long name; a short name that begins with 5, or has a space in it, is read as another. */
  lemma ReadRightIffNoStray(rs: seq<Record>)
    requires IsRegular(rs)
    ensures Parse(Live(rs)) == Entries(FatEntries(rs)) <==> NoStray(rs)
  {
    hide Parse, Live, FatEntries, IsRegular, NoStray;
    if NoStray(rs) { ReadRight(rs); } else { ReadWrong(rs); }
  }

  /** A record with a one-letter short name. */
  function OneLetter(letter: Byte, attrs: Byte, cluster: Byte): (r: Record)
    ensures r[0] == letter && r[11] == attrs && r[12] == 0 && forall i :: 1 <= i < 11 ==> r[i] == 0x20
  {
    seq(32, i => if i == 0 then letter else if i < 11 then 0x20 else if i == 11 then attrs
                 else if i == 26 then cluster else 0)
  }

  lemma OneLetterName(letter: Byte, attrs: Byte, cluster: Byte)
    requires letter != 0x20 && letter != 5
    ensures FatShortName(OneLetter(letter, attrs, cluster)) == [letter, 0]
  {
    var r := OneLetter(letter, attrs, cluster);
    hide OneLetter;
    assert r[..8][..1] == [letter];
    FilledUp([letter], r[..8]);
    FilledUp([], r[8..11]);
  }

  /** A read-only file A before a file B: A is lost, and B gets a name made of A's record. */
  lemma ReadOnlyFileIsLost(rest: seq<Record>)
    requires rest != [] && IsEnd(rest[0])
    ensures var a, b := OneLetter(0x41, 0x21, 3), OneLetter(0x42, 0x20, 4);
            && IsRegular([a, b] + rest)
            && FatEntries([a, b] + rest) == [RawEntry(a, [[0x41, 0]]), RawEntry(b, [[0x42, 0]])]
            && Parse(Live([a, b] + rest)) == Entries([RawEntry(b, [LfnUnits(a)])])
  {
    hide LfnUnits, FatShortName, Checksum, OneLetter;
    var a, b := OneLetter(0x41, 0x21, 3), OneLetter(0x42, 0x20, 4);
    var rs := [a, b] + rest;
    OneLetterName(0x41, 0x21, 3);
    OneLetterName(0x42, 0x20, 4);
    assert rs[1..] == [b] + rest && rs[1..][1..] == rest && rs[2..] == rest;
    assert IsOrdinary(a) && IsOrdinary(b) && IsLegalName(a) && IsLegalName(b);
    assert FatEntries(rest) == [] && FatEntries([b] + rest) == [RawEntry(b, [[0x42, 0]])];
    assert !IsLongName(a) && !IsLongName(b) && !IsDotEntry(a) && !IsDotEntry(b) && !IsErased(a) && !IsErased(b);
    assert IsRegular(rest) && IsRegular([b] + rest);
    ReadOnlyFileIsRead(a, b, rest);
  }

  lemma ReadOnlyFileIsRead(a: Record, b: Record, rest: seq<Record>)
    requires IsLive(a) && IsLive(b) && rest != [] && IsEnd(rest[0]) && IsLfn(a) && a[0] == 0x41
    ensures Parse(Live([a, b] + rest)) == Entries([RawEntry(b, [LfnUnits(a)])])
  {
    hide LfnUnits, IsLfn;
    var rs := [a, b] + rest;
    LivePrefix(rs, 2);
    assert rs[2..] == rest && Live(rs)[2..] == Live(rest) && Live(rest)[0] == rest[0];
    ParseEnd(Live(rest));
    ParseHead(Live(rs), 1, Live(rest));
    assert NameSegments(Live(rs)) == [LfnUnits(a)];
  }
}
