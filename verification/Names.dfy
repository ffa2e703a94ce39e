/** File names: from 13-unit segments to the UTF-8 of a directory record (ext4_dentry.cpp). */
module Names {
  import opened Disk

  const EXT4_NAME_LEN: nat := 255

  /** build_dentry leaves room for a terminating zero. */
  const NAME_LIMIT: nat := EXT4_NAME_LEN - 1

  /** The bytes ucs2toutf8 writes for one unit. */
  function EncodeUnit(ch: Unit): (bytes: seq<Byte>)
    ensures 1 <= |bytes| <= 3
  {
    var ch: int := ch;
    if ch < 0x80 then [ch]
    else if ch < 0x800 then [ch / 0x40 + 0xC0, ch % 0x40 + 0x80]
    else [ch / 0x1000 + 0xE0, ch / 0x40 % 0x40 + 0x80, ch % 0x40 + 0x80]
  }

  function EncodeUnits(units: seq<Unit>): seq<Byte> {
    if units == [] then [] else EncodeUnits(units[..|units| - 1]) + EncodeUnit(units[|units| - 1])
  }

  /** The name after one more segment: characters are added until a zero, or until one no
      longer fits. */
  function AppendSegment(name: seq<Byte>, src: seq<Unit>): seq<Byte>
    decreases src
  {
    if src == [] || src[0] == 0 || |name| + |EncodeUnit(src[0])| > NAME_LIMIT then name
    else AppendSegment(name + EncodeUnit(src[0]), src[1..])
  }

  /** ucs2toutf8, which build_dentry calls for one segment after another. */
  method Ucs2ToUtf8(name: seq<Byte>, src: seq<Unit>) returns (name': seq<Byte>)
    requires |name| <= NAME_LIMIT
    ensures name' == AppendSegment(name, src) && |name'| <= NAME_LIMIT
  {
    name' := name;
    var i := 0;
    while i < |src| && src[i] != 0
      invariant 0 <= i <= |src| && |name'| <= NAME_LIMIT
      invariant AppendSegment(name', src[i..]) == AppendSegment(name, src)
    {
      var bytes := EncodeUnit(src[i]);
      if |name'| + |bytes| > NAME_LIMIT { return; }
      name' := name' + bytes;
      i := i + 1;
    }
  }

  /** The name build_dentry makes of the segments in the archive. */
  function EncodeName(segments: seq<seq<Unit>>): seq<Byte> {
    if segments == [] then []
    else AppendSegment(EncodeName(segments[..|segments| - 1]), segments[|segments| - 1])
  }

  /** The units up to the first zero. */
  function BeforeZero(src: seq<Unit>): seq<Unit> {
    if src == [] || src[0] == 0 then [] else [src[0]] + BeforeZero(src[1..])
  }

  /** The units that make up the name of a file. */
  function NameUnits(segments: seq<seq<Unit>>): seq<Unit> {
    if segments == [] then []
    else NameUnits(segments[..|segments| - 1]) + BeforeZero(segments[|segments| - 1])
  }

  /** The units that fit in 254 bytes: a character that does not fit ends its segment, not the name. */
  function KeptOf(length: nat, src: seq<Unit>): seq<Unit>
    decreases src
  {
    if src == [] || src[0] == 0 || length + |EncodeUnit(src[0])| > 254 then []
    else [src[0]] + KeptOf(length + |EncodeUnit(src[0])|, src[1..])
  }

  function KeptUnits(segments: seq<seq<Unit>>): seq<Unit> {
    if segments == [] then []
    else
      var init := segments[..|segments| - 1];
      KeptUnits(init) + KeptOf(|EncodeName(init)|, segments[|segments| - 1])
  }

  // --- Decoding, section 3 of RFC 3629 -------------------------------------------------

  datatype Decoded = Malformed | Text(codePoints: seq<int>)

  predicate IsTail(b: Byte) { 0x80 <= b <= 0xBF }

  predicate IsSurrogate(u: Unit) { 0xD800 <= u <= 0xDFFF }

  /** The length of the well-formed character at the front, 0 when there is none. */
  function CharLength(bytes: seq<Byte>): (n: nat)
    ensures n <= |bytes| && n <= 4
  {
    var n := |bytes|;
    if n == 0 then 0
    else
      var b := bytes[0];
      if b <= 0x7F then 1
      else if 0xC2 <= b <= 0xDF && n > 1 && IsTail(bytes[1]) then 2
      else if n > 2 && IsTail(bytes[2])
              && ((b == 0xE0 && 0xA0 <= bytes[1] <= 0xBF)
                  || (0xE1 <= b <= 0xEC && IsTail(bytes[1]))
                  || (b == 0xED && 0x80 <= bytes[1] <= 0x9F)
                  || (0xEE <= b <= 0xEF && IsTail(bytes[1]))) then 3
      else if n > 3 && IsTail(bytes[2]) && IsTail(bytes[3])
              && ((b == 0xF0 && 0x90 <= bytes[1] <= 0xBF)
                  || (0xF1 <= b <= 0xF3 && IsTail(bytes[1]))
                  || (b == 0xF4 && 0x80 <= bytes[1] <= 0x8F)) then 4
      else 0
  }

  function CodePoint(bytes: seq<Byte>): int
    requires 0 < CharLength(bytes)
  {
    match CharLength(bytes)
    case 1 => bytes[0]
    case 2 => (bytes[0] as int - 0xC0) * 0x40 + (bytes[1] as int - 0x80)
    case 3 => (bytes[0] as int - 0xE0) * 0x1000 + (bytes[1] as int - 0x80) * 0x40 + (bytes[2] as int - 0x80)
    case _ => (bytes[0] as int - 0xF0) * 0x4_0000 + (bytes[1] as int - 0x80) * 0x1000
              + (bytes[2] as int - 0x80) * 0x40 + (bytes[3] as int - 0x80)
  }

  function Decode(bytes: seq<Byte>): Decoded {
    if bytes == [] then Text([])
    else
      var n := CharLength(bytes);
      if n == 0 then Malformed
      else
        match Decode(bytes[n..])
        case Malformed => Malformed
        case Text(rest) => Text([CodePoint(bytes)] + rest)
  }

  lemma DecodeUnit(u: Unit, rest: seq<Byte>)
    ensures !IsSurrogate(u) ==>
              CharLength(EncodeUnit(u) + rest) == |EncodeUnit(u)| && CodePoint(EncodeUnit(u) + rest) == u
    ensures IsSurrogate(u) ==> CharLength(EncodeUnit(u) + rest) == 0
  {
  }

  /** The encoding read from the front. */
  lemma {:induction false} EncodeUnitsCons(u: Unit, units: seq<Unit>)
    ensures EncodeUnits([u] + units) == EncodeUnit(u) + EncodeUnits(units)
  {
    hide EncodeUnit, EncodeUnits;
    EncodeNothing();
    if units == [] {
      assert [u] + units == [] + [u];
      EncodeUnitsSnoc([], u);
    } else {
      var init, last := units[..|units| - 1], units[|units| - 1];
      EncodeUnitsCons(u, init);
      assert units == init + [last] && [u] + units == ([u] + init) + [last];
      EncodeUnitsSnoc([u] + init, last);
      EncodeUnitsSnoc(init, last);
    }
  }

  lemma EncodeUnitsSnoc(units: seq<Unit>, u: Unit)
    ensures EncodeUnits(units + [u]) == EncodeUnits(units) + EncodeUnit(u)
  {
    assert (units + [u])[..|units|] == units;
  }

  lemma EncodeNothing()
    ensures EncodeUnits([]) == []
  {
  }

  /** Encoded units decode to themselves, exactly when no unit is a surrogate. */
  lemma {:induction false} DecodeEncode(units: seq<Unit>)
    ensures if forall u :: u in units ==> !IsSurrogate(u)
            then Decode(EncodeUnits(units)) == Text(units)
            else Decode(EncodeUnits(units)) == Malformed
  {
    if units != [] {
      var rest := units[1..];
      assert units == [units[0]] + rest;
      EncodeUnitsCons(units[0], rest);
      DecodeUnit(units[0], EncodeUnits(rest));
      DecodeEncode(rest);
      assert (EncodeUnit(units[0]) + EncodeUnits(rest))[|EncodeUnit(units[0])|..] == EncodeUnits(rest);
    }
  }

  // --- Names as a whole ----------------------------------------------------------------

  lemma {:induction false} EncodeUnitsAppend(a: seq<Unit>, b: seq<Unit>)
    ensures EncodeUnits(a + b) == EncodeUnits(a) + EncodeUnits(b)
  {
    hide EncodeUnit, EncodeUnits;
    EncodeNothing();
    if b == [] {
      assert a + b == a;
    } else {
      var init, last := b[..|b| - 1], b[|b| - 1];
      EncodeUnitsAppend(a, init);
      assert b == init + [last] && a + b == (a + init) + [last];
      EncodeUnitsSnoc(a + init, last);
      EncodeUnitsSnoc(init, last);
    }
  }

  lemma {:induction false} SegmentKept(name: seq<Byte>, src: seq<Unit>)
    requires |name| <= NAME_LIMIT
    ensures AppendSegment(name, src) == name + EncodeUnits(KeptOf(|name|, src))
    ensures |AppendSegment(name, src)| <= NAME_LIMIT
    ensures |name| + |EncodeUnits(BeforeZero(src))| <= NAME_LIMIT ==> KeptOf(|name|, src) == BeforeZero(src)
    decreases src
  {
    hide EncodeUnit, EncodeUnits;
    EncodeNothing();
    if src != [] && src[0] != 0 {
      var bytes := EncodeUnit(src[0]);
      EncodeUnitsCons(src[0], BeforeZero(src[1..]));
      if |name| + |bytes| <= NAME_LIMIT {
        SegmentKept(name + bytes, src[1..]);
        var rest := KeptOf(|name| + |bytes|, src[1..]);
        EncodeUnitsCons(src[0], rest);
        assert (name + bytes) + EncodeUnits(rest) == name + (bytes + EncodeUnits(rest));
      }
    }
  }

  /** A name is the encoding of the units that were kept, and it never outgrows its record. */
  lemma {:induction false} NameKept(segments: seq<seq<Unit>>)
    ensures EncodeName(segments) == EncodeUnits(KeptUnits(segments))
    ensures |EncodeName(segments)| <= 254
    ensures |EncodeUnits(NameUnits(segments))| <= 254 ==> KeptUnits(segments) == NameUnits(segments)
  {
    if segments != [] {
      var init, last := segments[..|segments| - 1], segments[|segments| - 1];
      NameKept(init);
      SegmentKept(EncodeName(init), last);
      EncodeUnitsAppend(KeptUnits(init), KeptOf(|EncodeName(init)|, last));
      EncodeUnitsAppend(NameUnits(init), BeforeZero(last));
    }
  }

  /** The name decodes to the units of the long or short name exactly when they contain no
      surrogate and their encoding fits. */
  lemma NameRoundTrip(segments: seq<seq<Unit>>)
    ensures Decode(EncodeName(segments)) == Text(NameUnits(segments)) <==>
              (forall u :: u in NameUnits(segments) ==> !IsSurrogate(u))
              && |EncodeUnits(NameUnits(segments))| <= 254
  {
    hide EncodeUnits, EncodeName, KeptUnits, Decode;
    NameKept(segments);
    DecodeEncode(KeptUnits(segments));
  }

  /** A name of one lone surrogate is stored, but cannot be read. */
  lemma SurrogateUnreadable()
    ensures EncodeName([[0xD800]]) == EncodeUnit(0xD800) && Decode(EncodeName([[0xD800]])) == Malformed
  {
    assert [0xD800][1..] == [] && [[0xD800]][..0] == [];
    assert AppendSegment([], [0xD800]) == [] + EncodeUnit(0xD800);
    DecodeUnit(0xD800, []);
    assert EncodeUnit(0xD800) + [] == EncodeUnit(0xD800);
  }

  /** Seven segments of 13 three-byte characters: 273 bytes do not fit. */
  lemma LongNameCutShort(u: Unit)
    requires 0x800 <= u && !IsSurrogate(u)
    ensures var segments := seq(7, _ => seq(13, _ => u));
            Decode(EncodeName(segments)) != Text(NameUnits(segments))
  {
    hide EncodeName, Decode;
    var segments := seq(7, _ => seq(13, _ => u));
    UnitsOfRepeated(7, u);
    EncodedLength(NameUnits(segments), u);
    NameRoundTrip(segments);
  }

  lemma {:induction false} UnitsOfRepeated(n: nat, u: Unit)
    requires u != 0
    ensures var units := NameUnits(seq(n, _ => seq(13, _ => u)));
            |units| == 13 * n && forall i :: 0 <= i < |units| ==> units[i] == u
  {
    if n > 0 {
      UnitsOfRepeated(n - 1, u);
      NothingBeyondZero(seq(13, _ => u));
      assert seq(n, _ => seq(13, _ => u))[..n - 1] == seq(n - 1, _ => seq(13, _ => u));
    }
  }

  lemma {:induction false} NothingBeyondZero(src: seq<Unit>)
    requires 0 !in src
    ensures BeforeZero(src) == src
  {
    if src != [] { NothingBeyondZero(src[1..]); }
  }

  lemma {:induction false} EncodedLength(units: seq<Unit>, u: Unit)
    requires 0x800 <= u && forall i :: 0 <= i < |units| ==> units[i] == u
    ensures |EncodeUnits(units)| == 3 * |units|
  {
    if units != [] { EncodedLength(units[..|units| - 1], u); }
  }
}
